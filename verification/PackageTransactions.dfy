/** The package transactions of src/pkg.rs: edits of a canonical image, kept in a fixed array. */
module PackageTransactions {
  import opened Counting
  import opened PackageImages
  import opened Results

  const MAX_TRANSACTION_INTENTS: nat := MAX_INSTALLED_PACKAGES * 2
  const MAX_ROLLBACK_DEPTH: nat := 4

  datatype TransactionAuthority = TransactionAuthority(generation: u64, stateDigest: u64)

  datatype TransactionReceipt = TransactionReceipt(
    previous: TransactionAuthority, current: TransactionAuthority, installed: nat, removed: nat, upgraded: nat)

  datatype PackageError =
    | StaleAuthority
    | GenerationExhausted
    | CapacityExhausted
    | PackageAlreadyInstalled
    | PackageNotInstalled
    | VersionPreconditionFailed
    | ContradictoryIntent
    | ContradictorySelection
    | InvalidResolverState
    | InvalidPersistentState
    | InvalidPackageIdentity
    | TransactionSealed
    | RollbackUnavailable

  /** A variable of the solver's registry. */
  datatype RegistryEntry = RegistryEntry(nameHash: u64, versionIdx: u16, selected: bool)

  function Lookup(m: map<u64, u16>, n: u64): Option<u16> {
    if n in m then Some(m[n]) else None
  }

  /** A fixed array whose first `count` places hold a canonical image and whose others are blank. */
  ghost predicate Holds(s: seq<ResolvedPackage>, count: nat) {
    && |s| == MAX_INSTALLED_PACKAGES && count <= MAX_INSTALLED_PACKAGES
    && Canonical(s[..count])
    && forall k :: count <= k < |s| ==> s[k] == NO_PACKAGE
  }

  // ----- transactions -----

  /** What a transaction would publish, which names it has touched, and whether it still takes edits. */
  datatype Candidate = Candidate(image: map<u64, u16>, touched: set<u64>, closed: bool) {
    function IntentError(n: u64): Option<PackageError> {
      if closed then Some(TransactionSealed)
      else if n == 0 then Some(InvalidPackageIdentity)
      else if n in touched then Some(ContradictoryIntent)
      else None
    }

    function InstallError(p: ResolvedPackage): Option<PackageError> {
      if IntentError(p.nameHash).Some? then IntentError(p.nameHash)
      else if p.nameHash in image then Some(PackageAlreadyInstalled)
      else if p.versionIdx == 0 then Some(InvalidPackageIdentity)
      else if |image| == MAX_INSTALLED_PACKAGES then Some(CapacityExhausted)
      else None
    }

    function ChangeError(n: u64, expected: u16, replacement: u16): Option<PackageError> {
      if IntentError(n).Some? then IntentError(n)
      else if n !in image then Some(PackageNotInstalled)
      else if image[n] != expected || replacement == 0 then Some(VersionPreconditionFailed)
      else None
    }
  }

  /** Untouched names are as in the base image, and every touched name is in the base or the new image. */
  ghost predicate EditsOnly(base: map<u64, u16>, image: map<u64, u16>, touched: set<u64>) {
    && (forall n :: n !in touched ==> Lookup(image, n) == Lookup(base, n))
    && touched <= base.Keys + image.Keys
  }

  lemma EditKeeps(base: map<u64, u16>, image: map<u64, u16>, touched: set<u64>, n: u64, next: map<u64, u16>)
    requires EditsOnly(base, image, touched) && n !in touched
    requires forall m :: m != n ==> Lookup(next, m) == Lookup(image, m)
    requires n in image || n in next
    ensures EditsOnly(base, next, touched + {n})
  {
    assert Lookup(image, n) == Lookup(base, n);
    forall m | m in touched ensures m in base || m in next {
      assert Lookup(next, m) == Lookup(image, m);
    }
  }

  /** The touched names always fit their array. */
  lemma IntentsFit(base: seq<ResolvedPackage>, current: seq<ResolvedPackage>, touched: seq<u64>)
    requires Canonical(base) && Canonical(current)
    requires |base| <= MAX_INSTALLED_PACKAGES && |current| <= MAX_INSTALLED_PACKAGES
    requires Distinct(touched) && Elements(touched) <= Image(base).Keys + Image(current).Keys
    ensures |touched| <= MAX_TRANSACTION_INTENTS
  {
    DistinctSize(touched);
    ImageSize(base);
    ImageSize(current);
    assert |Image(base).Keys| == |Image(base)| && |Image(current).Keys| == |Image(current)|;
    UnionSize(Image(base).Keys, Image(current).Keys);
    SubsetSize(Elements(touched), Image(base).Keys + Image(current).Keys);
  }

  lemma UnionSize(a: set<u64>, b: set<u64>)
    ensures |a + b| <= |a| + |b|
  {
    assert a + b == a + (b - a);
    SubsetSize(b - a, b);
  }

  class PackageTransaction {
    const base: TransactionAuthority
    const packages: array<ResolvedPackage>
    var count: nat
    const touchedNames: array<u64>
    var touchedCount: nat
    var closed: bool
    /** Every image of the ledger up to the one this transaction started from. */
    ghost const seen: seq<seq<ResolvedPackage>>

    ghost predicate Valid()
      reads this, packages, touchedNames
    {
      && Holds(packages[..], count)
      && touchedNames.Length == MAX_TRANSACTION_INTENTS && touchedCount <= MAX_TRANSACTION_INTENTS
      && seen != [] && Canonical(Base()) && |Base()| <= MAX_INSTALLED_PACKAGES
      && Distinct(touchedNames[..touchedCount])
      && (closed ==> touchedCount == 0)
      && (!closed ==> EditsOnly(Image(Base()), Image(packages[..count]), Elements(touchedNames[..touchedCount])))
    }

    ghost function Base(): seq<ResolvedPackage>
      requires seen != []
    {
      seen[|seen| - 1]
    }

    function Installed(): seq<ResolvedPackage>
      requires count <= packages.Length
      reads this`count, packages
    {
      packages[..count]
    }

    ghost function View(): Candidate
      requires Valid()
      reads this, packages, touchedNames
    {
      Candidate(Image(Installed()), Elements(touchedNames[..touchedCount]), closed)
    }

    constructor (base: TransactionAuthority, s: seq<ResolvedPackage>, count: nat, ghost seen: seq<seq<ResolvedPackage>>)
      requires Holds(s, count) && seen != [] && seen[|seen| - 1] == s[..count]
      ensures Valid() && fresh(packages) && fresh(touchedNames)
      ensures this.base == base && this.seen == seen && Installed() == s[..count]
      ensures View() == Candidate(Image(s[..count]), {}, false)
    {
      this.base, this.count, this.seen := base, count, seen;
      packages := new ResolvedPackage[MAX_INSTALLED_PACKAGES](k requires 0 <= k < |s| => s[k]);
      touchedNames := new u64[MAX_TRANSACTION_INTENTS](_ => 0);
      touchedCount, closed := 0, false;
      new;
      assert packages[..] == s;
      assert touchedNames[..touchedCount] == [];
    }

    method PrepareIntent(n: u64) returns (error: Option<PackageError>)
      requires Valid()
      ensures error == View().IntentError(n)
    {
      if closed {
        return Some(TransactionSealed);
      }
      if n == 0 {
        return Some(InvalidPackageIdentity);
      }
      if n in touchedNames[..touchedCount] {
        return Some(ContradictoryIntent);
      }
      return None;
    }

    // ----- editing the candidate in place -----

    /** Shifts the tail right and puts `p` in the gap. */
    method InsertPackage(index: nat, p: ResolvedPackage) returns (error: Option<PackageError>)
      requires Holds(packages[..], count) && Splits(packages[..count], index, p.nameHash)
      modifies packages, this`count
      ensures error == if p.nameHash == 0 || p.versionIdx == 0 then Some(InvalidPackageIdentity)
                       else if old(count) == MAX_INSTALLED_PACKAGES then Some(CapacityExhausted) else None
      ensures error.Some? ==> packages[..] == old(packages[..]) && count == old(count)
      ensures error.None? ==> Holds(packages[..], count)
      ensures error.None? ==> packages[..count] == InsertAt(old(packages[..count]), index, p)
      ensures error.None? ==> Image(packages[..count]) == old(Image(packages[..count]))[p.nameHash := p.versionIdx]
    {
      hide Canonical, Image;
      if p.nameHash == 0 || p.versionIdx == 0 {
        return Some(InvalidPackageIdentity);
      }
      if count == MAX_INSTALLED_PACKAGES {
        return Some(CapacityExhausted);
      }
      InsertKeeps(packages[..count], index, p);
      ghost var was := packages[..];
      forall k | index < k <= count {
        packages[k] := packages[k - 1];
      }
      packages[index] := p;
      count := count + 1;
      assert packages[..count] == InsertAt(was[..count - 1], index, p);
      return None;
    }

    /** Shifts the tail left over the package at `index`. */
    method RemovePackage(index: nat)
      requires Holds(packages[..], count) && index < count
      modifies packages, this`count
      ensures Holds(packages[..], count) && packages[..count] == RemoveAt(old(packages[..count]), index)
      ensures Image(packages[..count]) == old(Image(packages[..count])) - {old(packages[index].nameHash)}
    {
      hide Canonical, Image;
      RemoveKeeps(packages[..count], index);
      ghost var was := packages[..];
      forall k | index <= k < count - 1 {
        packages[k] := packages[k + 1];
      }
      packages[count - 1] := NO_PACKAGE;
      count := count - 1;
      assert packages[..count] == RemoveAt(was[..count + 1], index);
    }

    /** Notes that `n` was edited. There is always room. */
    method RecordIntent(n: u64)
      requires Holds(packages[..], count) && touchedNames.Length == MAX_TRANSACTION_INTENTS
      requires touchedCount <= MAX_TRANSACTION_INTENTS && !closed
      requires seen != [] && Canonical(Base()) && |Base()| <= MAX_INSTALLED_PACKAGES
      requires Distinct(touchedNames[..touchedCount]) && n !in touchedNames[..touchedCount]
      requires EditsOnly(Image(Base()), Image(packages[..count]), Elements(touchedNames[..touchedCount]) + {n})
      modifies touchedNames, this`touchedCount
      ensures Valid()
      ensures Elements(touchedNames[..touchedCount]) == old(Elements(touchedNames[..touchedCount])) + {n}
    {
      hide Canonical, Image;
      ghost var was := touchedNames[..touchedCount];
      assert Elements(was + [n]) == Elements(was) + {n};
      IntentsFit(Base(), packages[..count], was + [n]);
      touchedNames[touchedCount] := n;
      touchedCount := touchedCount + 1;
      assert touchedNames[..touchedCount] == was + [n];
    }

    // ----- intents -----

    /** Adds a package that is not there yet. */
    method Install(p: ResolvedPackage) returns (error: Option<PackageError>)
      requires Valid()
      modifies this`count, this`touchedCount, packages, touchedNames
      ensures Valid() && error == old(View()).InstallError(p)
      ensures View() == if error.Some? then old(View())
                        else Candidate(old(View()).image[p.nameHash := p.versionIdx], old(View()).touched + {p.nameHash}, false)
    {
      hide Canonical, Image, Distinct;
      error := PrepareIntent(p.nameHash);
      if error.Some? {
        return;
      }
      var found, index := FindName(Installed(), p.nameHash);
      if found {
        return Some(PackageAlreadyInstalled);
      }
      ImageSize(Installed());
      ghost var image, touched := Image(Installed()), Elements(touchedNames[..touchedCount]);
      error := InsertPackage(index, p);
      if error.Some? {
        return;
      }
      EditKeeps(Image(Base()), image, touched, p.nameHash, image[p.nameHash := p.versionIdx]);
      RecordIntent(p.nameHash);
    }

    /** Takes out a package at the version it is expected to have. */
    method Remove(n: u64, expected: u16) returns (error: Option<PackageError>)
      requires Valid()
      modifies this`count, this`touchedCount, packages, touchedNames
      ensures Valid() && error == old(View()).ChangeError(n, expected, 1)
      ensures View() == if error.Some? then old(View())
                        else Candidate(old(View()).image - {n}, old(View()).touched + {n}, false)
    {
      hide Canonical, Image, Distinct;
      error := PrepareIntent(n);
      if error.Some? {
        return;
      }
      var found, index := FindName(Installed(), n);
      if !found {
        return Some(PackageNotInstalled);
      }
      if packages[index].versionIdx != expected {
        return Some(VersionPreconditionFailed);
      }
      ghost var image, touched := Image(Installed()), Elements(touchedNames[..touchedCount]);
      RemovePackage(index);
      EditKeeps(Image(Base()), image, touched, n, image - {n});
      RecordIntent(n);
      error := None;
    }

    /** Replaces a package's version in place. */
    method Upgrade(n: u64, expected: u16, replacement: u16) returns (error: Option<PackageError>)
      requires Valid()
      modifies this`touchedCount, packages, touchedNames
      ensures Valid() && error == old(View()).ChangeError(n, expected, replacement)
      ensures View() == if error.Some? then old(View())
                        else Candidate(old(View()).image[n := replacement], old(View()).touched + {n}, false)
    {
      hide Canonical, Image, Distinct;
      error := PrepareIntent(n);
      if error.Some? {
        return;
      }
      var found, index := FindName(Installed(), n);
      if !found {
        return Some(PackageNotInstalled);
      }
      if packages[index].versionIdx != expected || replacement == 0 {
        return Some(VersionPreconditionFailed);
      }
      ghost var image, touched := Image(Installed()), Elements(touchedNames[..touchedCount]);
      UpgradeKeeps(Installed(), index, replacement);
      ghost var was := packages[..];
      packages[index] := packages[index].(versionIdx := replacement);
      assert packages[..count] == was[..count][index := was[index].(versionIdx := replacement)];
      EditKeeps(Image(Base()), image, touched, n, image[n := replacement]);
      RecordIntent(n);
      error := None;
    }

    // ----- the solver's selection -----

    /**
     * Replaces the candidate by the packages the solver selected and closes it. The first selection
     * that cannot be taken restores everything.
     */
    method ReconcileSelection(vars: seq<RegistryEntry>, n: nat) returns (error: Option<PackageError>)
      requires Valid()
      modifies this`count, this`closed, packages
      ensures Valid()
      ensures error == if old(closed) then Some(TransactionSealed)
                       else if old(touchedCount) != 0 then Some(ContradictoryIntent)
                       else if n > |vars| then Some(InvalidResolverState)
                       else SelectionError(Chosen(vars[..n]))
      ensures error.Some? ==> packages[..] == old(packages[..]) && count == old(count) && closed == old(closed)
      ensures error.None? ==> closed && forall p :: p in Installed() <==> p in Chosen(vars[..n])
    {
      if closed {
        return Some(TransactionSealed);
      }
      if touchedCount != 0 {
        return Some(ContradictoryIntent);
      }
      if n > |vars| {
        return Some(InvalidResolverState);
      }
      hide Canonical, Image, EditsOnly;
      var savedPackages, savedCount := packages[..], count;
      error := TakeAll(vars[..n]);
      if error.Some? {
        forall k | 0 <= k < packages.Length {
          packages[k] := savedPackages[k];
        }
        count := savedCount;
        assert packages[..] == savedPackages;
        return;
      }
      closed := true;
    }

    method TakeAll(vars: seq<RegistryEntry>) returns (error: Option<PackageError>)
      requires packages.Length == MAX_INSTALLED_PACKAGES
      modifies this`count, packages
      ensures error == SelectionError(Chosen(vars))
      ensures error.None? ==> Holds(packages[..], count) && Takes(packages[..count], Chosen(vars))
    {
      hide Canonical, Takes, SelectionError;
      forall k | 0 <= k < packages.Length {
        packages[k] := NO_PACKAGE;
      }
      count := 0;
      NothingHeld(packages[..]);
      var i := 0;
      while i < |vars|
        invariant 0 <= i <= |vars| && Holds(packages[..], count) && Takes(packages[..count], Chosen(vars[..i]))
        invariant SelectionError(Chosen(vars[..i])) == None
      {
        assert vars[..i + 1][..i] == vars[..i];
        if vars[i].selected {
          error := TakeSelected(ResolvedPackage(vars[i].nameHash, vars[i].versionIdx), Chosen(vars[..i]));
          if error.Some? {
            ErrorStays(vars, i + 1);
            return;
          }
        }
        i := i + 1;
      }
      assert vars[..i] == vars;
      error := None;
    }

    method TakeSelected(p: ResolvedPackage, ghost sel: seq<ResolvedPackage>) returns (error: Option<PackageError>)
      requires Holds(packages[..], count) && Takes(packages[..count], sel) && SelectionError(sel) == None
      modifies this`count, packages
      ensures error == SelectionError(sel + [p])
      ensures error.None? ==> Holds(packages[..], count) && Takes(packages[..count], sel + [p])
    {
      hide Canonical, Image, InsertAt, SelectionError;
      TakesNext(packages[..count], sel, p);
      var found, index := FindName(Installed(), p.nameHash);
      if found {
        return Some(ContradictorySelection);
      }
      InsertPoints(packages[..count], index, p);
      error := InsertPackage(index, p);
    }
  }

  /** The selected variables, in registry order. */
  function Chosen(vars: seq<RegistryEntry>): seq<ResolvedPackage> {
    if vars == [] then []
    else
      var last, rest := vars[|vars| - 1], Chosen(vars[..|vars| - 1]);
      if last.selected then rest + [ResolvedPackage(last.nameHash, last.versionIdx)] else rest
  }

  /** What is wrong with the first selection that cannot be taken. */
  function SelectionError(sel: seq<ResolvedPackage>): Option<PackageError> {
    if sel == [] then None
    else
      var last, rest := sel[|sel| - 1], sel[..|sel| - 1];
      if SelectionError(rest).Some? then SelectionError(rest)
      else if exists i :: 0 <= i < |rest| && rest[i].nameHash == last.nameHash then Some(ContradictorySelection)
      else if last.nameHash == 0 || last.versionIdx == 0 then Some(InvalidPackageIdentity)
      else if |rest| == MAX_INSTALLED_PACKAGES then Some(CapacityExhausted)
      else None
  }

  /** A selection is taken exactly when it has one nonzero version per nonzero name and fits. */
  lemma {:induction false} SelectionTaken(sel: seq<ResolvedPackage>)
    ensures SelectionError(sel) == None <==>
            && |sel| <= MAX_INSTALLED_PACKAGES
            && (forall i :: 0 <= i < |sel| ==> sel[i].nameHash != 0 && sel[i].versionIdx != 0)
            && forall i, j :: 0 <= i < j < |sel| ==> sel[i].nameHash != sel[j].nameHash
  {
    if sel == [] {
    } else {
      var rest := sel[..|sel| - 1];
      SelectionTaken(rest);
      assert forall i :: 0 <= i < |rest| ==> rest[i] == sel[i];
    }
  }

  /** The packages held are those selected. */
  ghost predicate Takes(s: seq<ResolvedPackage>, sel: seq<ResolvedPackage>) {
    |s| == |sel| && forall p :: p in s <==> p in sel
  }

  lemma NothingHeld(s: seq<ResolvedPackage>)
    requires |s| == MAX_INSTALLED_PACKAGES && forall k :: 0 <= k < |s| ==> s[k] == NO_PACKAGE
    ensures Holds(s, 0) && Takes(s[..0], Chosen([])) && SelectionError(Chosen([])) == None
  {
  }

  lemma TakesNext(s: seq<ResolvedPackage>, sel: seq<ResolvedPackage>, p: ResolvedPackage)
    requires Canonical(s) && Takes(s, sel) && SelectionError(sel) == None
    ensures SelectionError(sel + [p]) ==
            if p.nameHash in Image(s) then Some(ContradictorySelection)
            else if p.nameHash == 0 || p.versionIdx == 0 then Some(InvalidPackageIdentity)
            else if |s| == MAX_INSTALLED_PACKAGES then Some(CapacityExhausted)
            else None
  {
    assert (sel + [p])[..|sel|] == sel;
    if i :| 0 <= i < |sel| && sel[i].nameHash == p.nameHash {
      assert sel[i] in s;
    }
    if p.nameHash in Image(s) {
      var q :| q in s && q.nameHash == p.nameHash;
      assert q in sel;
    }
  }

  lemma {:induction false} ErrorStays(vars: seq<RegistryEntry>, i: nat)
    requires i <= |vars| && SelectionError(Chosen(vars[..i])).Some?
    ensures SelectionError(Chosen(vars)) == SelectionError(Chosen(vars[..i]))
  {
    if i == |vars| {
      assert vars[..i] == vars;
    } else {
      assert vars[..|vars| - 1][..i] == vars[..i];
      ErrorStays(vars[..|vars| - 1], i);
      var rest := Chosen(vars[..|vars| - 1]);
      if vars[|vars| - 1].selected {
        assert Chosen(vars)[..|rest|] == rest;
      }
    }
  }

  /** The order in which the registry lists a selection cannot change the image. */
  lemma SelectionOrderIrrelevant(s: seq<ResolvedPackage>, t: seq<ResolvedPackage>, sel: seq<ResolvedPackage>,
                                 other: seq<ResolvedPackage>)
    requires Canonical(s) && Canonical(t) && Takes(s, sel) && Takes(t, other)
    requires multiset(sel) == multiset(other)
    ensures s == t
  {
    forall p ensures p in s <==> p in t {
      assert p in sel <==> p in multiset(sel);
      assert p in other <==> p in multiset(other);
    }
    PackagesDetermine(s, t);
  }
}
