/**
 * The transactional owner of the target root of src/binary.rs. Files move one rename at a time; any
 * read, write or rename may fail without effect, while the renames and removals that undo a failed
 * operation succeed.
 */
module BinaryStore {
  import opened Bytes
  import opened Counting
  import Format = PayloadFormat
  import opened Results
  import opened ServiceState

  datatype File = File(mode: nat, bytes: seq<u8>)

  datatype StagedFile = StagedFile(path: string, file: File)

  datatype BinaryPayload = BinaryPayload(package: string, version: string, release: nat, files: seq<StagedFile>)

  ghost predicate ValidPayload(payload: BinaryPayload) {
    && payload.release != 0 && 0 < |payload.files| <= Format.MAX_PAYLOAD_FILES
    && (forall i :: 0 <= i < |payload.files| ==>
          payload.files[i].file.mode <= Format.MAX_MODE && |payload.files[i].file.bytes| <= Format.MAX_OUTPUT_BYTES)
    && forall i, j :: 0 <= i < j < |payload.files| ==> payload.files[i].path != payload.files[j].path
  }

  /** The checks of a payload, file by file. */
  method ValidatePayload(payload: BinaryPayload) returns (ok: bool)
    ensures ok <==> ValidPayload(payload)
  {
    if payload.release == 0 || payload.files == [] || |payload.files| > Format.MAX_PAYLOAD_FILES {
      return false;
    }
    var seen: set<string> := {};
    for i := 0 to |payload.files|
      invariant forall k :: 0 <= k < i ==>
        payload.files[k].file.mode <= Format.MAX_MODE && |payload.files[k].file.bytes| <= Format.MAX_OUTPUT_BYTES
      invariant forall k, l :: 0 <= k < l < i ==> payload.files[k].path != payload.files[l].path
      invariant seen == set k | 0 <= k < i :: payload.files[k].path
    {
      var f := payload.files[i];
      if f.path in seen {
        var k :| 0 <= k < i && payload.files[k].path == f.path;
        assert k < i < |payload.files| && payload.files[k].path == payload.files[i].path;
        return false;
      }
      if f.file.mode > 0xFFF || |f.file.bytes| > Format.MAX_OUTPUT_BYTES {
        return false;
      }
      seen := seen + {f.path};
    }
    return true;
  }

  function Get(m: map<string, File>, p: string): Option<File> {
    if p in m then Some(m[p]) else None
  }

  lemma SameFiles(m: map<string, File>, n: map<string, File>)
    requires forall p :: Get(m, p) == Get(n, p)
    ensures m == n
  {
    forall p ensures p in m <==> p in n {
      assert Get(m, p) == Get(n, p);
    }
    forall p | p in m ensures m[p] == n[p] {
      assert Get(m, p) == Get(n, p);
    }
  }

  /** The paths a receipt owns. */
  function Paths(files: seq<InstalledFile>): set<string> {
    set f | f in files :: f.path
  }

  function PayloadPaths(files: seq<StagedFile>): set<string> {
    set f | f in files :: f.path
  }

  function Owned(receipts: map<string, BinaryReceipt>, package: string): set<string> {
    if package in receipts then Paths(receipts[package].files) else {}
  }

  function Installed(files: seq<StagedFile>, sha: seq<u8> -> string): seq<InstalledFile> {
    seq(|files|, i requires 0 <= i < |files| =>
      InstalledFile(files[i].path, files[i].file.mode, sha(files[i].file.bytes)))
  }

  function ReceiptFor(payload: BinaryPayload, artifact: string, sha: seq<u8> -> string): BinaryReceipt {
    BinaryReceipt(payload.package, payload.version, payload.release, artifact, Installed(payload.files, sha))
  }

  /** The store writes the ownership receipt that the service expects of the prepared entry. */
  lemma StoreMatchesService(payload: BinaryPayload, e: PreparedEntry, sha: seq<u8> -> string)
    requires payload.package == e.receipt.package && payload.version == e.receipt.version
    requires payload.release == e.receipt.release
    requires e.payload == Payload(payload.package, payload.version, payload.release, Installed(payload.files, sha))
    ensures ReceiptFor(payload, e.receipt.artifact, sha) == e.Binary()
    ensures Matches(ReceiptFor(payload, e.receipt.artifact, sha), e.receipt)
  {
  }

  /** The file a payload has at `p`. */
  ghost function Staged(files: seq<StagedFile>, p: string): Option<File> {
    if exists i :: 0 <= i < |files| && files[i].path == p then
      var i :| 0 <= i < |files| && files[i].path == p;
      Some(files[i].file)
    else None
  }

  /** Every file of a receipt is there as recorded, once. */
  ghost predicate ReceiptHolds(files: map<string, File>, receipt: BinaryReceipt, sha: seq<u8> -> string) {
    && (forall i :: 0 <= i < |receipt.files| ==>
          var f := receipt.files[i];
          f.path in files && sha(files[f.path].bytes) == f.sha256 && files[f.path].mode == f.mode)
    && forall i, j :: 0 <= i < j < |receipt.files| ==> receipt.files[i].path != receipt.files[j].path
  }

  /** Receipts hold, and no path has two owners. */
  ghost predicate Consistent(files: map<string, File>, receipts: map<string, BinaryReceipt>, sha: seq<u8> -> string) {
    && (forall p :: p in receipts ==> receipts[p].package == p && ReceiptHolds(files, receipts[p], sha))
    && forall p, q :: p in receipts && q in receipts && p != q ==> Owned(receipts, p) !! Owned(receipts, q)
  }

  /** The target root after `payload` took the place of what `gone` held. */
  ghost predicate TakesPlace(before: map<string, File>, after: map<string, File>, gone: set<string>,
                             files: seq<StagedFile>) {
    forall p :: Get(after, p) ==
                if p in PayloadPaths(files) then Staged(files, p)
                else if p in gone then None
                else Get(before, p)
  }

  // ----- what the operations keep -----

  lemma InstallKeeps(before: map<string, File>, after: map<string, File>, receipts: map<string, BinaryReceipt>,
                     payload: BinaryPayload, artifact: string, sha: seq<u8> -> string)
    requires Consistent(before, receipts, sha) && ValidPayload(payload)
    requires TakesPlace(before, after, Owned(receipts, payload.package), payload.files)
    requires forall p :: p in PayloadPaths(payload.files) && p in before ==> p in Owned(receipts, payload.package)
    ensures Consistent(after, receipts[payload.package := ReceiptFor(payload, artifact, sha)], sha)
  {
    var receipt := ReceiptFor(payload, artifact, sha);
    var next := receipts[payload.package := receipt];
    PathsOfReceipt(payload, artifact, sha);
    NewReceiptHolds(before, after, Owned(receipts, payload.package), payload, artifact, sha);
    forall p | p in next && p != payload.package
      ensures ReceiptHolds(after, next[p], sha) && Owned(next, p) !! Owned(next, payload.package)
    {
      OthersHold(before, after, receipts, payload, sha, p);
    }
  }

  lemma PathsOfReceipt(payload: BinaryPayload, artifact: string, sha: seq<u8> -> string)
    ensures Paths(ReceiptFor(payload, artifact, sha).files) == PayloadPaths(payload.files)
  {
    var fs := ReceiptFor(payload, artifact, sha).files;
    forall p ensures p in Paths(fs) <==> p in PayloadPaths(payload.files) {
      if p in PayloadPaths(payload.files) {
        var i :| 0 <= i < |payload.files| && payload.files[i].path == p;
        assert fs[i] in fs;
      }
    }
  }

  lemma NewReceiptHolds(before: map<string, File>, after: map<string, File>, gone: set<string>, payload: BinaryPayload,
                        artifact: string, sha: seq<u8> -> string)
    requires ValidPayload(payload) && TakesPlace(before, after, gone, payload.files)
    ensures ReceiptHolds(after, ReceiptFor(payload, artifact, sha), sha)
  {
    forall i | 0 <= i < |payload.files| ensures Get(after, payload.files[i].path) == Some(payload.files[i].file) {
      assert payload.files[i].path in PayloadPaths(payload.files);
    }
  }

  /** Another package's files are neither the payload's nor the replaced ones. */
  lemma OthersHold(before: map<string, File>, after: map<string, File>, receipts: map<string, BinaryReceipt>,
                   payload: BinaryPayload, sha: seq<u8> -> string, p: string)
    requires Consistent(before, receipts, sha) && p in receipts && p != payload.package
    requires TakesPlace(before, after, Owned(receipts, payload.package), payload.files)
    requires forall q :: q in PayloadPaths(payload.files) && q in before ==> q in Owned(receipts, payload.package)
    ensures ReceiptHolds(after, receipts[p], sha) && Owned(receipts, p) !! PayloadPaths(payload.files)
  {
    var fs := receipts[p].files;
    assert Owned(receipts, p) !! Owned(receipts, payload.package);
    forall i | 0 <= i < |fs| ensures fs[i].path !in PayloadPaths(payload.files) && Get(after, fs[i].path) == Get(before, fs[i].path) {
      assert fs[i] in fs && fs[i].path in Owned(receipts, p);
    }
  }

  lemma RemoveKeeps(before: map<string, File>, after: map<string, File>, receipts: map<string, BinaryReceipt>,
                    package: string, sha: seq<u8> -> string)
    requires Consistent(before, receipts, sha) && package in receipts
    requires forall p :: Get(after, p) == if p in Owned(receipts, package) then None else Get(before, p)
    ensures Consistent(after, receipts - {package}, sha)
  {
    var next := receipts - {package};
    forall p | p in next ensures ReceiptHolds(after, next[p], sha) {
      assert Owned(receipts, p) !! Owned(receipts, package);
      var fs := receipts[p].files;
      forall i | 0 <= i < |fs| ensures Get(after, fs[i].path) == Get(before, fs[i].path) {
        assert fs[i] in fs && fs[i].path in Owned(receipts, p);
      }
    }
    assert forall p :: p in next ==> Owned(next, p) == Owned(receipts, p);
  }

  // ----- files moved aside and into place -----

  /** `moved` went from the root to the backup. */
  ghost predicate SetAside(before: map<string, File>, files: map<string, File>, backup: map<string, File>, moved: set<string>) {
    && moved <= before.Keys && backup.Keys == moved
    && (forall p :: p in moved ==> backup[p] == before[p])
    && forall p :: Get(files, p) == if p in moved then None else Get(before, p)
  }

  /** `moved` is in the backup and the first `n` payload files are in place. */
  ghost predicate Replaced(before: map<string, File>, files: map<string, File>, backup: map<string, File>,
                           moved: set<string>, payload: seq<StagedFile>, n: nat)
    requires n <= |payload|
  {
    && moved <= before.Keys && backup.Keys == moved
    && (forall p :: p in moved ==> backup[p] == before[p])
    && forall p :: Get(files, p) ==
                   if p in PayloadPaths(payload[..n]) then Staged(payload, p)
                   else if p in moved then None
                   else Get(before, p)
  }

  lemma NextFile(payload: seq<StagedFile>, n: nat)
    requires n < |payload| && forall i, j :: 0 <= i < j < |payload| ==> payload[i].path != payload[j].path
    ensures PayloadPaths(payload[..n + 1]) == PayloadPaths(payload[..n]) + {payload[n].path}
    ensures Staged(payload, payload[n].path) == Some(payload[n].file)
    ensures payload[n].path in PayloadPaths(payload)
  {
    assert payload[..n + 1] == payload[..n] + [payload[n]];
    assert payload[n] in payload;
  }

  lemma NextInPlace(before: map<string, File>, files: map<string, File>, backup: map<string, File>, moved: set<string>,
                    payload: seq<StagedFile>, n: nat)
    requires n < |payload| && Replaced(before, files, backup, moved, payload, n)
    requires forall i, j :: 0 <= i < j < |payload| ==> payload[i].path != payload[j].path
    ensures Replaced(before, files[payload[n].path := payload[n].file], backup, moved, payload, n + 1)
  {
    hide PayloadPaths, Staged;
    NextFile(payload, n);
    var next := files[payload[n].path := payload[n].file];
    forall p ensures Get(next, p) == if p in PayloadPaths(payload[..n + 1]) then Staged(payload, p)
                                     else if p in moved then None else Get(before, p)
    {
      assert p != payload[n].path ==> Get(next, p) == Get(files, p);
    }
  }

  lemma PreviousUndone(before: map<string, File>, files: map<string, File>, backup: map<string, File>,
                       moved: set<string>, payload: seq<StagedFile>, n: nat)
    requires n < |payload| && Replaced(before, files, backup, moved, payload, n + 1)
    requires forall i, j :: 0 <= i < j < |payload| ==> payload[i].path != payload[j].path
    requires payload[n].path in before ==> payload[n].path in moved
    ensures Replaced(before, files - {payload[n].path}, backup, moved, payload, n)
  {
    hide PayloadPaths, Staged;
    NextFile(payload, n);
    NotYet(payload, n);
    var next := files - {payload[n].path};
    forall p ensures Get(next, p) == if p in PayloadPaths(payload[..n]) then Staged(payload, p)
                                     else if p in moved then None else Get(before, p)
    {
      assert p != payload[n].path ==> Get(next, p) == Get(files, p);
    }
  }

  lemma NotYet(payload: seq<StagedFile>, n: nat)
    requires n < |payload| && forall i, j :: 0 <= i < j < |payload| ==> payload[i].path != payload[j].path
    ensures payload[n].path !in PayloadPaths(payload[..n])
  {
  }

  /** The new files may go in: what is in the way belongs to the package being replaced. */
  ghost predicate TargetsFree(files: map<string, File>, payload: seq<StagedFile>, mine: set<string>) {
    forall p :: p in PayloadPaths(payload) && p in files ==> p in mine
  }

  class BinaryInstallStore {
    const fails: nat -> bool
    const sha: seq<u8> -> string
    var tick: nat
    var files: map<string, File>
    var receipts: map<string, BinaryReceipt>

    constructor (fails: nat -> bool, sha: seq<u8> -> string, files: map<string, File>)
      ensures this.fails == fails && this.sha == sha && this.files == files && receipts == map[]
      ensures Valid()
    {
      this.fails, this.sha, this.files, receipts, tick := fails, sha, files, map[], 0;
    }

    ghost predicate Valid()
      reads this
    {
      Consistent(files, receipts, sha)
    }

    ghost predicate FaultFree() {
      forall k: nat :: !fails(k)
    }

    ghost predicate Unmodified(owned: seq<InstalledFile>)
      reads this`files
    {
      forall i :: 0 <= i < |owned| ==> owned[i].path in files && sha(files[owned[i].path].bytes) == owned[i].sha256
    }

    /** One read, write or rename. */
    method Attempt() returns (ok: bool)
      modifies this`tick
      ensures ok == !fails(old(tick)) && tick == old(tick) + 1
    {
      ok := !fails(tick);
      tick := tick + 1;
    }

    // ----- checking the target -----

    /** Owned files must be unmodified, and new ones must not hit anything else. */
    method ValidateTargets(payload: seq<StagedFile>, owned: seq<InstalledFile>, replace: bool) returns (ok: bool)
      modifies this`tick
      ensures ok ==> TargetsFree(files, payload, if replace then Paths(owned) else {})
      ensures FaultFree() && Unmodified(owned) ==>
              (ok <==> TargetsFree(files, payload, if replace then Paths(owned) else {}))
    {
      ghost var root := files;
      for i := 0 to |owned|
        modifies this`tick
        invariant files == root
      {
        var read := Attempt();
        if !read || (owned[i].path in files && sha(files[owned[i].path].bytes) != owned[i].sha256) {
          return false;
        }
      }
      for i := 0 to |payload|
        modifies this`tick
        invariant files == root
        invariant forall k :: 0 <= k < i && payload[k].path in files ==> replace && payload[k].path in Paths(owned)
      {
        var read := Attempt();
        if !read {
          return false;
        }
        if payload[i].path in files && !(replace && payload[i].path in Paths(owned)) {
          assert payload[i] in payload;
          return false;
        }
      }
      ok := true;
    }

    // ----- moving files -----

    method StageAll(payload: seq<StagedFile>) returns (ok: bool, stage: map<string, File>)
      requires forall i, j :: 0 <= i < j < |payload| ==> payload[i].path != payload[j].path
      modifies this`tick
      ensures FaultFree() ==> ok
      ensures ok ==> forall i :: 0 <= i < |payload| ==> payload[i].path in stage && stage[payload[i].path] == payload[i].file
    {
      stage := map[];
      for i := 0 to |payload|
        modifies this`tick
        invariant forall k :: 0 <= k < i ==> payload[k].path in stage && stage[payload[k].path] == payload[k].file
      {
        ok := Attempt();
        if !ok {
          return;
        }
        stage := stage[payload[i].path := payload[i].file];
      }
      ok := true;
    }

    /** Renames what is at `paths` into the backup, one file at a time. */
    method SetAsideAll(paths: set<string>) returns (ok: bool, backups: seq<string>, backup: map<string, File>)
      modifies this`tick, this`files
      ensures SetAside(old(files), files, backup, Elements(backups)) && Distinct(backups)
      ensures ok ==> Elements(backups) == paths * old(files).Keys
      ensures FaultFree() ==> ok
    {
      hide SetAside, Distinct, Elements, AsideSoFar;
      backups, backup := [], map[];
      var pending := paths;
      ghost var before := files;
      NothingAside(before, paths);
      while pending != {}
        modifies this`tick, this`files
        invariant AsideSoFar(before, files, backup, backups, paths, pending)
        decreases |pending|
      {
        AsideHolds(before, files, backup, backups, paths, pending);
        var p :| p in pending;
        if p in files {
          ok := Attempt();
          if !ok {
            return;
          }
          AsideNext(before, files, backup, backups, paths, pending, p);
          backup := backup[p := files[p]];
          files := files - {p};
          backups := backups + [p];
        } else {
          AsideSkips(before, files, backup, backups, paths, pending, p);
        }
        pending := pending - {p};
      }
      AsideHolds(before, files, backup, backups, paths, pending);
      ok := true;
    }

    /** Renames the staged files into place. */
    method PlaceAll(payload: seq<StagedFile>, stage: map<string, File>, ghost before: map<string, File>,
                    ghost backup: map<string, File>, ghost moved: set<string>)
      returns (ok: bool, placed: seq<string>)
      requires forall i, j :: 0 <= i < j < |payload| ==> payload[i].path != payload[j].path
      requires forall i :: 0 <= i < |payload| ==> payload[i].path in stage && stage[payload[i].path] == payload[i].file
      requires SetAside(before, files, backup, moved)
      modifies this`tick, this`files
      ensures |placed| <= |payload| && forall i :: 0 <= i < |placed| ==> placed[i] == payload[i].path
      ensures Replaced(before, files, backup, moved, payload, |placed|)
      ensures ok ==> |placed| == |payload|
      ensures FaultFree() ==> ok
    {
      hide PayloadPaths, Staged;
      placed := [];
      NothingPlaced(before, files, backup, moved, payload);
      while |placed| < |payload|
        modifies this`tick, this`files
        invariant |placed| <= |payload| && forall i :: 0 <= i < |placed| ==> placed[i] == payload[i].path
        invariant Replaced(before, files, backup, moved, payload, |placed|)
        decreases |payload| - |placed|
      {
        ok := Attempt();
        if !ok {
          return;
        }
        var i := |placed|;
        NextInPlace(before, files, backup, moved, payload, i);
        files := files[payload[i].path := stage[payload[i].path]];
        placed := placed + [payload[i].path];
      }
      ok := true;
    }

    /** Puts everything back: new files go, then the backups return, last first. */
    method RollbackFiles(placed: seq<string>, backups: seq<string>, backup: map<string, File>,
                         ghost before: map<string, File>, ghost payload: seq<StagedFile>)
      requires forall i, j :: 0 <= i < j < |payload| ==> payload[i].path != payload[j].path
      requires |placed| <= |payload| && forall i :: 0 <= i < |placed| ==> placed[i] == payload[i].path
      requires Replaced(before, files, backup, Elements(backups), payload, |placed|) && Distinct(backups)
      requires forall i :: 0 <= i < |placed| && placed[i] in before ==> placed[i] in backups
      modifies this`files
      ensures files == before
    {
      hide PayloadPaths, Staged;
      var k := |placed|;
      while k > 0
        modifies this`files
        invariant 0 <= k <= |placed| && Replaced(before, files, backup, Elements(backups), payload, k)
      {
        k := k - 1;
        PreviousUndone(before, files, backup, Elements(backups), payload, k);
        files := files - {placed[k]};
      }
      NothingLeft(before, files, backup, Elements(backups), payload);
      Restore(backups, backup, before);
    }

    method Restore(backups: seq<string>, backup: map<string, File>, ghost before: map<string, File>)
      requires SetAside(before, files, backup, Elements(backups)) && Distinct(backups)
      modifies this`files
      ensures files == before
    {
      var rest, k := backup, |backups|;
      assert backups[..k] == backups;
      while k > 0
        modifies this`files
        invariant 0 <= k <= |backups| && SetAside(before, files, rest, Elements(backups[..k]))
      {
        k := k - 1;
        assert backups[..k + 1] == backups[..k] + [backups[k]];
        assert Elements(backups[..k]) == Elements(backups[..k + 1]) - {backups[k]};
        var p := backups[k];
        assert p in Elements(backups[..k + 1]);
        ReturnOne(before, files, rest, Elements(backups[..k + 1]), p);
        files := files[p := rest[p]];
        rest := rest - {p};
      }
      assert Elements(backups[..0]) == {};
      SameFiles(files, before);
    }

    // ----- installing and removing -----

    /**
     * Installs a payload, in place of the previous build if asked to. Either nothing changed or
     * everything did. A failure leaves the files and receipts as they were, except that the last read
     * may fail after the installation is complete.
     */
    method InstallPayload(payload: BinaryPayload, artifact: string, replace: bool)
      returns (r: Option<BinaryReceipt>, ghost late: bool)
      requires Valid()
      modifies this
      ensures Valid()
      ensures r.Some? || late ==> Installs(old(files), files, old(receipts), receipts, payload, artifact, replace, sha)
      ensures r.Some? ==> r.value == ReceiptFor(payload, artifact, sha) && !late
      ensures r.Some? ==>
                && r.value.package == payload.package && r.value.version == payload.version
                && r.value.release == payload.release && r.value.artifact == artifact
                && |r.value.files| == |payload.files|
                && forall i :: 0 <= i < |payload.files| ==>
                     && r.value.files[i].path == payload.files[i].path && r.value.files[i].mode == payload.files[i].file.mode
                     && r.value.files[i].sha256 == sha(payload.files[i].file.bytes)
      ensures r.None? && !late ==> files == old(files) && receipts == old(receipts)
      ensures late ==> 0 < tick && fails(tick - 1)
      ensures FaultFree() ==> (r.Some? <==> Installable(old(files), old(receipts), payload, replace))
    {
      hide ReceiptHolds, PayloadPaths, Paths, TakesPlace;
      r, late := None, false;
      var read := Attempt();
      var wellFormed := ValidatePayload(payload);
      if !read || !wellFormed || (payload.package in receipts) != replace {
        return;
      }
      var owned := if replace then receipts[payload.package].files else [];
      OwnedAreUnmodified(files, receipts, sha, payload.package);
      NoPaths();
      assert (if replace then Paths(owned) else {}) == Owned(receipts, payload.package);
      var free := ValidateTargets(payload.files, owned, replace);
      if !free {
        return;
      }
      var directories := Attempt();
      if !directories {
        return;
      }
      var staged, stage := StageAll(payload.files);
      if !staged {
        return;
      }
      var swapped := Swap(payload, artifact, owned, stage);
      if !swapped {
        return;
      }
      InstallKeeps(old(files), files, old(receipts), payload, artifact, sha);
      var reread := Attempt();
      if !reread {
        late := true;
        return;
      }
      r := Some(receipts[payload.package]);
    }

    /** Moves the old files out and the staged ones in, and writes the receipt; undoes it all on a failure. */
    method Swap(payload: BinaryPayload, artifact: string, owned: seq<InstalledFile>, stage: map<string, File>)
      returns (ok: bool)
      requires ValidPayload(payload) && Paths(owned) == Owned(receipts, payload.package)
      requires forall i :: 0 <= i < |payload.files| ==>
        payload.files[i].path in stage && stage[payload.files[i].path] == payload.files[i].file
      modifies this
      ensures ok ==> TakesPlace(old(files), files, Owned(old(receipts), payload.package), payload.files)
      ensures ok ==> receipts == old(receipts)[payload.package := ReceiptFor(payload, artifact, sha)]
      ensures !ok ==> files == old(files) && receipts == old(receipts)
      ensures FaultFree() ==> ok
    {
      hide PayloadPaths, Paths, Replaced, SetAside, TakesPlace;
      var backups, backup;
      ok, backups, backup := SetAsideAll(Paths(owned) + PayloadPaths(payload.files));
      if !ok {
        Restore(backups, backup, old(files));
        return;
      }
      var placed;
      ok, placed := PlaceAll(payload.files, stage, old(files), backup, Elements(backups));
      if ok {
        ok := Attempt();
      }
      if !ok {
        PlacedWereMoved(payload.files, placed, old(files), Paths(owned), backups);
        RollbackFiles(placed, backups, backup, old(files), payload.files);
        return;
      }
      SwapDone(old(files), files, backup, Elements(backups), payload.files, Owned(receipts, payload.package));
      receipts := receipts[payload.package := ReceiptFor(payload, artifact, sha)];
    }

    /**
     * Removes a package. Either nothing changed or everything it owns is gone. A failure leaves things
     * as they were, except that the last cleanup may fail after the removal is complete.
     */
    method Remove(package: string) returns (ok: bool, ghost late: bool)
      requires Valid()
      modifies this
      ensures Valid()
      ensures ok || late ==> Removes(old(files), files, old(receipts), receipts, package)
      ensures !ok && !late ==> files == old(files) && receipts == old(receipts)
      ensures late ==> !ok && 0 < tick && fails(tick - 1)
      ensures FaultFree() ==> (ok <==> package in old(receipts))
    {
      hide ReceiptHolds, Paths;
      late := false;
      ok := Attempt();
      if !ok || package !in receipts {
        ok := false;
        return;
      }
      var owned := receipts[package].files;
      OwnedAreUnmodified(files, receipts, sha, package);
      ok := CheckUnmodified(owned);
      if !ok {
        return;
      }
      ok := Attempt();
      if !ok {
        return;
      }
      ok := TakeOut(package, owned);
      if !ok {
        return;
      }
      RemoveKeeps(old(files), files, old(receipts), package, sha);
      ok := Attempt();
      late := !ok;
    }

    method CheckUnmodified(owned: seq<InstalledFile>) returns (ok: bool)
      modifies this`tick
      ensures FaultFree() && Unmodified(owned) ==> ok
      ensures ok ==> forall i :: 0 <= i < |owned| && owned[i].path in files ==>
                sha(files[owned[i].path].bytes) == owned[i].sha256
    {
      ghost var root := files;
      for i := 0 to |owned|
        modifies this`tick
        invariant files == root
        invariant forall k :: 0 <= k < i && owned[k].path in files ==>
          sha(files[owned[k].path].bytes) == owned[k].sha256
      {
        ok := Attempt();
        if !ok || (owned[i].path in files && sha(files[owned[i].path].bytes) != owned[i].sha256) {
          return false;
        }
      }
      ok := true;
    }

    /** Moves the owned files away and retires the receipt in two steps; puts everything back on a failure. */
    method TakeOut(package: string, owned: seq<InstalledFile>) returns (ok: bool)
      requires package in receipts && Paths(owned) == Owned(receipts, package)
      modifies this
      ensures ok ==> Removes(old(files), files, old(receipts), receipts, package)
      ensures !ok ==> files == old(files) && receipts == old(receipts)
      ensures FaultFree() ==> ok
    {
      hide Paths, SetAside;
      var backups, backup;
      ok, backups, backup := SetAsideAll(Paths(owned));
      if ok {
        ok := Attempt();
        if ok {
          var retired := receipts[package];
          receipts := receipts - {package};
          ok := Attempt();
          if !ok {
            receipts := receipts[package := retired];
          }
        }
      }
      if !ok {
        Restore(backups, backup, old(files));
        return;
      }
      TakenOut(old(files), files, backup, Elements(backups), Paths(owned));
    }
  }

  ghost predicate Installable(files: map<string, File>, receipts: map<string, BinaryReceipt>, payload: BinaryPayload,
                              replace: bool) {
    && ValidPayload(payload) && (payload.package in receipts) == replace
    && TargetsFree(files, payload.files, Owned(receipts, payload.package))
  }

  ghost predicate Installs(before: map<string, File>, after: map<string, File>, receipts: map<string, BinaryReceipt>,
                           next: map<string, BinaryReceipt>, payload: BinaryPayload, artifact: string, replace: bool,
                           sha: seq<u8> -> string) {
    && Installable(before, receipts, payload, replace)
    && TakesPlace(before, after, Owned(receipts, payload.package), payload.files)
    && next == receipts[payload.package := ReceiptFor(payload, artifact, sha)]
  }

  ghost predicate Removes(before: map<string, File>, after: map<string, File>, receipts: map<string, BinaryReceipt>,
                          next: map<string, BinaryReceipt>, package: string) {
    && package in receipts && next == receipts - {package}
    && forall p :: Get(after, p) == if p in Owned(receipts, package) then None else Get(before, p)
  }

  lemma NoPaths()
    ensures Paths([]) == {}
  {
  }

  lemma OwnedAreUnmodified(files: map<string, File>, receipts: map<string, BinaryReceipt>, sha: seq<u8> -> string,
                           package: string)
    requires Consistent(files, receipts, sha)
    ensures package in receipts ==> forall i :: 0 <= i < |receipts[package].files| ==>
              var f := receipts[package].files[i];
              f.path in files && sha(files[f.path].bytes) == f.sha256
  {
  }

  lemma PlacedWereMoved(payload: seq<StagedFile>, placed: seq<string>, before: map<string, File>, owned: set<string>,
                        backups: seq<string>)
    requires |placed| <= |payload| && forall i :: 0 <= i < |placed| ==> placed[i] == payload[i].path
    requires Elements(backups) == (owned + PayloadPaths(payload)) * before.Keys
    ensures forall i :: 0 <= i < |placed| && placed[i] in before ==> placed[i] in backups
  {
    forall i | 0 <= i < |placed| && placed[i] in before ensures placed[i] in backups {
      assert payload[i] in payload;
      assert placed[i] in Elements(backups);
    }
  }

  lemma SwapDone(before: map<string, File>, files: map<string, File>, backup: map<string, File>, moved: set<string>,
                 payload: seq<StagedFile>, owned: set<string>)
    requires Replaced(before, files, backup, moved, payload, |payload|)
    requires moved == (owned + PayloadPaths(payload)) * before.Keys
    ensures TakesPlace(before, files, owned, payload)
  {
    hide PayloadPaths, Staged;
    assert payload[..|payload|] == payload;
    forall p ensures Get(files, p) == if p in PayloadPaths(payload) then Staged(payload, p)
                                      else if p in owned then None else Get(before, p)
    {
      assert p !in moved && p in owned ==> Get(before, p).None?;
    }
  }

  lemma TakenOut(before: map<string, File>, files: map<string, File>, backup: map<string, File>, moved: set<string>,
                 owned: set<string>)
    requires SetAside(before, files, backup, moved) && moved == owned * before.Keys
    ensures forall p :: Get(files, p) == if p in owned then None else Get(before, p)
  {
  }

  // ----- whole runs -----

  ghost predicate Unowned(receipts: map<string, BinaryReceipt>, p: string) {
    forall q :: q in receipts ==> p !in Owned(receipts, q)
  }

  /** Every unowned file is as it was and still unowned. */
  ghost predicate LeavesAlone(before: map<string, File>, receipts: map<string, BinaryReceipt>, after: map<string, File>,
                              next: map<string, BinaryReceipt>) {
    forall p :: p in before && Unowned(receipts, p) ==> Get(after, p) == Get(before, p) && Unowned(next, p)
  }

  lemma InstallLeavesAlone(before: map<string, File>, after: map<string, File>, receipts: map<string, BinaryReceipt>,
                           next: map<string, BinaryReceipt>, payload: BinaryPayload, artifact: string, replace: bool,
                           sha: seq<u8> -> string)
    requires Installs(before, after, receipts, next, payload, artifact, replace, sha)
    ensures LeavesAlone(before, receipts, after, next)
  {
    hide Paths, PayloadPaths;
    PathsOfReceipt(payload, artifact, sha);
    forall p | p in before && Unowned(receipts, p) ensures Get(after, p) == Get(before, p) && Unowned(next, p) {
      assert p !in Owned(receipts, payload.package);
      forall q | q in next ensures p !in Owned(next, q) {
        assert q != payload.package ==> Owned(next, q) == Owned(receipts, q);
      }
    }
  }

  lemma RemoveLeavesAlone(before: map<string, File>, after: map<string, File>, receipts: map<string, BinaryReceipt>,
                          next: map<string, BinaryReceipt>, package: string)
    requires Removes(before, after, receipts, next, package)
    ensures LeavesAlone(before, receipts, after, next)
  {
    forall p | p in before && Unowned(receipts, p) ensures Get(after, p) == Get(before, p) && Unowned(next, p) {
      assert forall q :: q in next ==> Owned(next, q) == Owned(receipts, q);
    }
  }

  datatype Request = Put(payload: BinaryPayload, artifact: string, replace: bool) | Take(package: string)

  /**
   * Over any run of installs, updates and removals with any failures, receipts stay true and disjoint
   * and no file that had no owner is ever touched.
   */
  method Run(store: BinaryInstallStore, requests: seq<Request>)
    requires store.Valid()
    modifies store
    ensures store.Valid()
    ensures LeavesAlone(old(store.files), old(store.receipts), store.files, store.receipts)
  {
    hide Consistent, Installs, Removes;
    for i := 0 to |requests|
      invariant store.Valid()
      invariant LeavesAlone(old(store.files), old(store.receipts), store.files, store.receipts)
    {
      ghost var files, receipts := store.files, store.receipts;
      match requests[i] {
        case Put(payload, artifact, replace) =>
          var r; ghost var late;
          r, late := store.InstallPayload(payload, artifact, replace);
          if r.Some? || late {
            InstallLeavesAlone(files, store.files, receipts, store.receipts, payload, artifact, replace, store.sha);
          }
        case Take(package) =>
          var ok; ghost var late;
          ok, late := store.Remove(package);
          if ok || late {
            RemoveLeavesAlone(files, store.files, receipts, store.receipts, package);
          }
      }
      assert LeavesAlone(files, receipts, store.files, store.receipts);
    }
  }

  /** What was at the paths done with is in the backup. */
  ghost predicate AsideSoFar(before: map<string, File>, files: map<string, File>, backup: map<string, File>,
                             backups: seq<string>, paths: set<string>, pending: set<string>) {
    && SetAside(before, files, backup, Elements(backups)) && Distinct(backups)
    && pending <= paths && Elements(backups) == (paths - pending) * before.Keys
  }

  lemma NothingAside(before: map<string, File>, paths: set<string>)
    ensures AsideSoFar(before, before, map[], [], paths, paths)
  {
  }

  lemma AsideHolds(before: map<string, File>, files: map<string, File>, backup: map<string, File>, backups: seq<string>,
                   paths: set<string>, pending: set<string>)
    requires AsideSoFar(before, files, backup, backups, paths, pending)
    ensures SetAside(before, files, backup, Elements(backups)) && Distinct(backups)
    ensures pending == {} ==> Elements(backups) == paths * before.Keys
  {
    hide SetAside, Distinct;
    assert pending == {} ==> paths - pending == paths;
  }

  lemma AsideNext(before: map<string, File>, files: map<string, File>, backup: map<string, File>, backups: seq<string>,
                  paths: set<string>, pending: set<string>, p: string)
    requires AsideSoFar(before, files, backup, backups, paths, pending) && p in files && p in pending
    ensures AsideSoFar(before, files - {p}, backup[p := files[p]], backups + [p], paths, pending - {p})
  {
    assert Elements(backups + [p]) == Elements(backups) + {p};
    assert Get(files, p).Some?;
    assert p !in Elements(backups);
    forall q ensures Get(files - {p}, q) == if q in Elements(backups) + {p} then None else Get(before, q) {
      assert q != p ==> Get(files - {p}, q) == Get(files, q);
    }
    assert Get(before, p) == Get(files, p);
  }

  lemma AsideSkips(before: map<string, File>, files: map<string, File>, backup: map<string, File>, backups: seq<string>,
                   paths: set<string>, pending: set<string>, p: string)
    requires AsideSoFar(before, files, backup, backups, paths, pending) && p !in files && p in pending
    ensures AsideSoFar(before, files, backup, backups, paths, pending - {p})
  {
    hide Distinct;
    assert Get(files, p).None?;
    assert p !in before || p in Elements(backups);
  }

  lemma ReturnOne(before: map<string, File>, files: map<string, File>, backup: map<string, File>, moved: set<string>,
                  p: string)
    requires SetAside(before, files, backup, moved) && p in moved
    ensures SetAside(before, files[p := backup[p]], backup - {p}, moved - {p})
  {
    var next := files[p := backup[p]];
    forall q ensures Get(next, q) == if q in moved - {p} then None else Get(before, q) {
      assert q != p ==> Get(next, q) == Get(files, q);
    }
  }

  lemma NothingPlaced(before: map<string, File>, files: map<string, File>, backup: map<string, File>,
                      moved: set<string>, payload: seq<StagedFile>)
    requires SetAside(before, files, backup, moved)
    ensures Replaced(before, files, backup, moved, payload, 0)
  {
  }

  lemma NothingLeft(before: map<string, File>, files: map<string, File>, backup: map<string, File>,
                    moved: set<string>, payload: seq<StagedFile>)
    requires Replaced(before, files, backup, moved, payload, 0)
    ensures SetAside(before, files, backup, moved)
  {
    forall p ensures Get(files, p) == if p in moved then None else Get(before, p) {
      assert p !in PayloadPaths(payload[..0]);
    }
  }
}
