/**
 * The generation store of src/store.rs: immutable images named by their hash behind one pointer that
 * is replaced atomically. Every step on disk may fail or stop the process, before or after it took
 * effect. The hash is any function into 32 bytes that never yields the null digest.
 */
module GenerationStore {
  import opened Bytes
  import opened Faults
  import opened Generation
  import opened PackageImages
  import opened Pointer
  import opened Results

  datatype StoreError =
    | Io
    | DecodeError(error: GenerationError)
    | InvalidPointer
    | ParentMismatch
    | ParentMissing
    | ActiveMismatch
    | GenerationNotMonotonic
    | GenerationDigestMismatch
    | DigestCollision

  /** `Stopped` is a process that did not live to see the result. */
  datatype Outcome<+T> = Finished(value: T) | Rejected(error: StoreError) | Stopped

  type StateDigest = seq<ResolvedPackage> -> u64

  ghost predicate Decodable(b: seq<u8>, digest: StateDigest) {
    exists image :: WellFormed(image, digest) && Encoded(image) == b
  }

  ghost function ImageOf(b: seq<u8>, digest: StateDigest): (image: GenerationImage)
    requires Decodable(b, digest)
    ensures WellFormed(image, digest) && Encoded(image) == b
  {
    var image :| WellFormed(image, digest) && Encoded(image) == b;
    image
  }

  ghost predicate ShaFits(sha: seq<u8> -> Digest) {
    forall b :: |sha(b)| == DIGEST_BYTES && sha(b) != NO_GENERATION
  }

  /** The parent of an image is stored and older; a first image is not generation 0. */
  ghost predicate ParentFits(stored: map<Digest, seq<u8>>, image: GenerationImage, digest: StateDigest) {
    if image.parent == NO_GENERATION then image.generation > 0
    else
      && image.parent in stored && Decodable(stored[image.parent], digest)
      && ImageOf(stored[image.parent], digest).generation < image.generation
  }

  /** Every stored image hashes to its name, decodes, and has a fitting parent. */
  ghost predicate Sound(stored: map<Digest, seq<u8>>, sha: seq<u8> -> Digest, digest: StateDigest) {
    forall d :: d in stored ==>
      sha(stored[d]) == d && Decodable(stored[d], digest) && ParentFits(stored, ImageOf(stored[d], digest), digest)
  }

  lemma StoreKeepsSound(stored: map<Digest, seq<u8>>, sha: seq<u8> -> Digest, digest: StateDigest, b: seq<u8>)
    requires Sound(stored, sha, digest) && Decodable(b, digest) && ParentFits(stored, ImageOf(b, digest), digest)
    requires sha(b) in stored ==> stored[sha(b)] == b
    ensures Sound(stored[sha(b) := b], sha, digest)
  {
    hide WellFormed, Encoded, Decodable;
    var next := stored[sha(b) := b];
    forall d | d in next
      ensures sha(next[d]) == d && Decodable(next[d], digest) && ParentFits(next, ImageOf(next[d], digest), digest)
    {
      if d in stored {
        assert next[d] == stored[d];
        var parent := ImageOf(stored[d], digest).parent;
        assert parent != NO_GENERATION ==> next[parent] == stored[parent];
      }
    }
  }

  // ----- parent chains -----

  /** The images from `d` back to a first one. */
  ghost function Chain(stored: map<Digest, seq<u8>>, sha: seq<u8> -> Digest, digest: StateDigest, d: Digest): seq<Digest>
    requires Sound(stored, sha, digest) && d in stored
    decreases ImageOf(stored[d], digest).generation
  {
    if ImageOf(stored[d], digest).parent == NO_GENERATION then [d]
    else [d] + Chain(stored, sha, digest, ImageOf(stored[d], digest).parent)
  }

  /** Going back, generations strictly decrease until an image without a parent. */
  lemma {:induction false} ChainReachesFirst(stored: map<Digest, seq<u8>>, sha: seq<u8> -> Digest, digest: StateDigest,
                                             d: Digest)
    requires Sound(stored, sha, digest) && d in stored
    ensures var c := Chain(stored, sha, digest, d);
            && 0 < |c| <= ImageOf(stored[d], digest).generation && c[0] == d
            && (forall i :: 0 <= i < |c| ==> c[i] in stored)
            && (forall i :: 0 <= i < |c| - 1 ==>
                  ImageOf(stored[c[i]], digest).parent == c[i + 1] &&
                  ImageOf(stored[c[i + 1]], digest).generation < ImageOf(stored[c[i]], digest).generation)
            && ImageOf(stored[c[|c| - 1]], digest).parent == NO_GENERATION
    decreases ImageOf(stored[d], digest).generation
  {
    hide WellFormed, Encoded, Decodable;
    var image := ImageOf(stored[d], digest);
    if image.parent == NO_GENERATION {
    } else {
      ChainReachesFirst(stored, sha, digest, image.parent);
    }
  }

  class FilesystemGenerationStore {
    const faults: nat -> Fault
    const sha: seq<u8> -> Digest
    const digest: StateDigest
    var tick: nat
    var generations: map<Digest, seq<u8>>
    var active: Option<seq<u8>>
    var temporaries: map<nat, seq<u8>>
    var serial: nat
    /** The digest the active pointer names. */
    ghost var current: Option<Digest>
    /** Whether what happened in the directory of images, and in the root, has been synced. */
    ghost var imagesSynced: bool
    ghost var rootSynced: bool

    /** A new temporary name is not in use. */
    ghost predicate NamesFresh()
      reads this
    {
      forall n :: n in temporaries ==> n < serial
    }

    ghost predicate Valid()
      reads this
    {
      && ShaFits(sha) && Sound(generations, sha, digest)
      && active == (if current.Some? then Some(PointerText(current.value)) else None)
      && (current.Some? ==> current.value in generations) && NamesFresh()
    }

    constructor (faults: nat -> Fault, sha: seq<u8> -> Digest, digest: StateDigest)
      requires ShaFits(sha)
      ensures Valid() && current == None && generations == map[] && tick == 0 && imagesSynced && rootSynced
      ensures this.faults == faults && this.sha == sha && this.digest == digest
    {
      this.faults, this.sha, this.digest := faults, sha, digest;
      tick, generations, active, temporaries, serial, current := 0, map[], None, map[], 0, None;
      imagesSynced, rootSynced := true, true;
    }

    ghost predicate FaultFree() {
      forall k: nat :: faults(k) == NoFault
    }

    /** The process stopped at the last step since tick `t`. */
    predicate StoppedSince(t: nat)
      reads this`tick
    {
      t < tick && faults(tick - 1).Status() == Crashed
    }

    method NextFault() returns (f: Fault)
      modifies this`tick
      ensures f == faults(old(tick)) && tick == old(tick) + 1
    {
      f := faults(tick);
      tick := tick + 1;
    }

    // ----- primitive steps -----

    method CreateTemporary(bytes: seq<u8>) returns (status: Status, name: nat)
      modifies this`tick, this`temporaries, this`serial
      ensures status != Refused && old(tick) <= tick && (status == Crashed <==> StoppedSince(old(tick)))
      requires NamesFresh()
      ensures NamesFresh() && name !in old(temporaries)
      ensures status == Done ==> temporaries == old(temporaries)[name := bytes]
      ensures FaultFree() ==> status == Done
    {
      name, serial := serial, serial + 1;
      var f := NextFault();
      if f.TakesEffect() {
        temporaries := temporaries[name := bytes];
      }
      return f.Status(), name;
    }

    method RemoveTemporary(name: nat) returns (status: Status)
      requires NamesFresh()
      modifies this`tick, this`temporaries
      ensures status != Refused && old(tick) <= tick && (status == Crashed <==> StoppedSince(old(tick)))
      ensures NamesFresh() && (status == Done ==> temporaries == old(temporaries) - {name})
      ensures FaultFree() ==> status == Done
    {
      var f := NextFault();
      if f.TakesEffect() {
        temporaries := temporaries - {name};
      }
      return f.Status();
    }

    method SyncImages() returns (status: Status)
      modifies this`tick, this`imagesSynced
      ensures status != Refused && old(tick) <= tick && (status == Crashed <==> StoppedSince(old(tick)))
      ensures status == Done ==> imagesSynced
      ensures old(imagesSynced) ==> imagesSynced
      ensures FaultFree() ==> status == Done
    {
      var f := NextFault();
      imagesSynced := imagesSynced || f.TakesEffect();
      return f.Status();
    }

    method SyncRoot() returns (status: Status)
      modifies this`tick, this`rootSynced
      ensures status != Refused && old(tick) <= tick && (status == Crashed <==> StoppedSince(old(tick)))
      ensures status == Done ==> rootSynced
      ensures FaultFree() ==> status == Done
    {
      var f := NextFault();
      rootSynced := rootSynced || f.TakesEffect();
      return f.Status();
    }

    /** Links a complete temporary file under its final name, which must be free. */
    method HardLink(name: nat, d: Digest) returns (status: Status)
      requires name in temporaries
      modifies this`tick, this`generations, this`imagesSynced
      ensures status != Refused && old(tick) <= tick && (status == Crashed <==> StoppedSince(old(tick)))
      ensures generations == old(generations) || generations == old(generations)[d := temporaries[name]]
      ensures d in old(generations) ==> generations == old(generations) && status != Done
      ensures status == Done ==> generations == old(generations)[d := temporaries[name]]
      ensures FaultFree() && d !in old(generations) ==> status == Done
    {
      var f := NextFault();
      if d in generations {
        return if f.Status() == Crashed then Crashed else Failed;
      }
      if f.TakesEffect() {
        generations, imagesSynced := generations[d := temporaries[name]], false;
      }
      return f.Status();
    }

    /** Renames a complete temporary file over the active pointer. */
    method RenameOverActive(name: nat, ghost d: Digest) returns (status: Status)
      requires name in temporaries && temporaries[name] == PointerText(d) && NamesFresh()
      modifies this`tick, this`active, this`temporaries, this`current, this`rootSynced
      ensures NamesFresh() && (status == Done ==> temporaries == old(temporaries) - {name})
      ensures status != Refused && old(tick) <= tick && (status == Crashed <==> StoppedSince(old(tick)))
      ensures (active, current) == (old(active), old(current)) || (active, current) == (Some(PointerText(d)), Some(d))
      ensures status == Done ==> (active, current) == (Some(PointerText(d)), Some(d))
      ensures FaultFree() ==> status == Done
    {
      var f := NextFault();
      if f.TakesEffect() {
        active, temporaries := Some(temporaries[name]), temporaries - {name};
        current, rootSynced := Some(d), false;
      }
      return f.Status();
    }

    /** Renames the active pointer away. */
    method RetireActive() returns (status: Status, name: nat)
      requires active.Some? && NamesFresh()
      modifies this`tick, this`active, this`temporaries, this`serial, this`current, this`rootSynced
      ensures NamesFresh() && name !in old(temporaries)
      ensures status == Done ==> temporaries == old(temporaries)[name := old(active).value]
      ensures status != Refused && old(tick) <= tick && (status == Crashed <==> StoppedSince(old(tick)))
      ensures (active, current) == (old(active), old(current)) || (active, current) == (None, None)
      ensures status == Done ==> (active, current) == (None, None)
      ensures FaultFree() ==> status == Done
    {
      name, serial := serial, serial + 1;
      var f := NextFault();
      if f.TakesEffect() {
        temporaries := temporaries[name := active.value];
        active, current, rootSynced := None, None, false;
      }
      return f.Status(), name;
    }

    // ----- reading -----

    /** The active digest as the pointer file has it. */
    method Active() returns (r: Outcome<Option<Digest>>)
      requires Valid()
      modifies this`tick
      ensures r.Finished? ==> r.value == current
      ensures FaultFree() ==> r.Finished?
      ensures r.Rejected? ==> r.error == Io
      ensures old(tick) <= tick && (r.Stopped? <==> StoppedSince(old(tick)))
    {
      hide Sound;
      var f := NextFault();
      if !f.NoFault? {
        return if f.Status() == Crashed then Stopped else Rejected(Io);
      }
      if active.None? {
        return Finished(None);
      }
      CurrentFits();
      var d := DecodePointer(active.value);
      if d.None? {
        assert false;
        return Rejected(InvalidPointer);
      }
      return Finished(d);
    }

    lemma CurrentFits()
      requires Valid()
      ensures current.Some? ==> |current.value| == DIGEST_BYTES && current.value != NO_GENERATION
    {
    }

    /** Reads an image back, measuring and decoding it again. */
    method LoadGeneration(d: Digest) returns (r: Outcome<GenerationImage>)
      requires Valid()
      modifies this`tick
      ensures r.Finished? ==> d in generations && r.value == ImageOf(generations[d], digest)
      ensures FaultFree() ==> (r.Finished? <==> d in generations)
      ensures r.Rejected? ==> r.error == Io
      ensures old(tick) <= tick && (r.Stopped? <==> StoppedSince(old(tick)))
    {
      hide WellFormed, ParentFits;
      var f := NextFault();
      if !f.NoFault? {
        return if f.Status() == Crashed then Stopped else Rejected(Io);
      }
      if d !in generations {
        return Rejected(Io);
      }
      if sha(generations[d]) != d {
        assert false;
        return Rejected(GenerationDigestMismatch);
      }
      ghost var image := ImageOf(generations[d], digest);
      var decoded := Decode(generations[d], digest);
      if decoded.Err? {
        assert false;
        return Rejected(Io);
      }
      return Finished(decoded.value);
    }

    // ----- replacing the pointer and storing an image -----

    method AtomicReplace(d: Digest) returns (status: Status)
      requires NamesFresh()
      modifies this`tick, this`serial, this`active, this`temporaries, this`current, this`rootSynced
      ensures status != Refused && old(tick) <= tick && (status == Crashed <==> StoppedSince(old(tick)))
      ensures NamesFresh() && (status == Done ==> rootSynced && temporaries == old(temporaries))
      ensures (active, current) == (old(active), old(current)) || (active, current) == (Some(PointerText(d)), Some(d))
      ensures status == Done ==> (active, current) == (Some(PointerText(d)), Some(d))
      ensures FaultFree() ==> status == Done
    {
      var text := EncodeDigest(d);
      var name;
      status, name := CreateTemporary(text + [NEWLINE]);
      if status != Done {
        return;
      }
      status := RenameOverActive(name, d);
      if status == Failed {
        var cleaned := RemoveTemporary(name);
        return if cleaned == Crashed then Crashed else Failed;
      }
      if status != Done {
        return;
      }
      status := SyncRoot();
    }

    method ReplacePointer(target: Option<Digest>) returns (status: Status)
      requires (active.Some? <==> current.Some?) && NamesFresh()
      modifies this`tick, this`serial, this`active, this`temporaries, this`current, this`rootSynced
      ensures NamesFresh() && (status == Done ==> temporaries == old(temporaries))
      ensures status == Done && (target.Some? || old(active).Some? || old(rootSynced)) ==> rootSynced
      ensures status != Refused && old(tick) <= tick && (status == Crashed <==> StoppedSince(old(tick)))
      ensures (active, current) == (old(active), old(current)) ||
              (active, current) == (if target.Some? then Some(PointerText(target.value)) else None, target)
      ensures status == Done ==> current == target && active.Some? == target.Some?
      ensures FaultFree() ==> status == Done
    {
      if target.Some? {
        status := AtomicReplace(target.value);
        return;
      }
      if active.None? {
        return Done;
      }
      var name;
      status, name := RetireActive();
      if status != Done {
        return;
      }
      status := SyncRoot();
      if status != Done {
        return;
      }
      status := RemoveTemporary(name);
      if status != Done {
        return;
      }
      status := SyncRoot();
    }

    /** Writes an image under a name that is still free. */
    method PublishImmutable(d: Digest, bytes: seq<u8>) returns (status: Status)
      requires d !in generations && NamesFresh()
      modifies this`tick, this`serial, this`generations, this`temporaries, this`imagesSynced
      ensures NamesFresh() && (status == Done ==> imagesSynced && temporaries == old(temporaries))
      ensures status != Refused && old(tick) <= tick && (status == Crashed <==> StoppedSince(old(tick)))
      ensures generations == old(generations) || generations == old(generations)[d := bytes]
      ensures status == Done ==> generations == old(generations)[d := bytes]
      ensures FaultFree() ==> status == Done
    {
      var name;
      status, name := CreateTemporary(bytes);
      if status != Done {
        return;
      }
      status := HardLink(name, d);
      if status == Failed {
        var cleaned := RemoveTemporary(name);
        return if cleaned == Crashed then Crashed else Failed;
      }
      if status != Done {
        return;
      }
      status := RemoveTemporary(name);
      if status != Done {
        return;
      }
      status := SyncImages();
    }

    // ----- publishing and rolling back -----

    /** Why bytes are not published, each reason after the ones before it. */
    ghost predicate Unpublishable(bytes: seq<u8>, e: StoreError)
      requires Valid()
      reads this
    {
      match e
      case DecodeError(error) => Unreadable(bytes, digest, error)
      case ParentMismatch => Decodable(bytes, digest) && ImageOf(bytes, digest).parent != current.GetOr(NO_GENERATION)
      case GenerationNotMonotonic =>
        && Decodable(bytes, digest) && ImageOf(bytes, digest).parent == current.GetOr(NO_GENERATION)
        && !Younger(ImageOf(bytes, digest))
      case DigestCollision =>
        && Decodable(bytes, digest) && ImageOf(bytes, digest).parent == current.GetOr(NO_GENERATION)
        && Younger(ImageOf(bytes, digest)) && sha(bytes) in generations && generations[sha(bytes)] != bytes
      case _ => false
    }

    /** Younger than the active image, or not the very first generation if there is none. */
    ghost predicate Younger(image: GenerationImage)
      requires Valid()
      reads this
    {
      if current.Some? then ImageOf(generations[current.value], digest).generation < image.generation
      else image.generation > 0
    }

    /** The bytes are an image that continues the active one. */
    ghost predicate Acceptable(bytes: seq<u8>)
      requires Valid()
      reads this
    {
      && Decodable(bytes, digest)
      && ImageOf(bytes, digest).parent == current.GetOr(NO_GENERATION)
      && Younger(ImageOf(bytes, digest))
      && (sha(bytes) in generations ==> generations[sha(bytes)] == bytes)
    }

    lemma AcceptableFits(bytes: seq<u8>)
      requires Valid() && Acceptable(bytes)
      ensures Sound(generations[sha(bytes) := bytes], sha, digest)
    {
      CurrentFits();
      StoreKeepsSound(generations, sha, digest, bytes);
    }

    /**
     * Stores an image and moves the pointer to it. Wherever it fails or stops, the pointer is the old
     * one or the new one, and what it names is stored.
     */
    method Publish(bytes: seq<u8>) returns (r: Outcome<Digest>)
      requires Valid()
      modifies this
      ensures Valid()
      ensures generations == old(generations) || (old(Acceptable(bytes)) && generations == old(generations)[sha(bytes) := bytes])
      ensures current == old(current) || (old(Acceptable(bytes)) && current == Some(sha(bytes)))
      ensures r.Finished? ==> r.value == sha(bytes) && old(Acceptable(bytes)) && current == Some(sha(bytes))
      ensures r.Finished? ==> rootSynced && temporaries == old(temporaries)
      ensures r.Finished? && (sha(bytes) !in old(generations) || old(imagesSynced)) ==> imagesSynced
      ensures FaultFree() ==> (r.Finished? <==> old(Acceptable(bytes)))
      ensures r.Rejected? ==> r.error == Io || old(Unpublishable(bytes, r.error))
      ensures FaultFree() ==> !r.Stopped? && r != Rejected(Io)
      ensures old(tick) <= tick && (r.Stopped? <==> StoppedSince(old(tick)))
    {
      hide Sound, Encoded, WellFormed, ParentFits, PointerText, ToLe, Decodable, Unreadable;
      var image := Decode(bytes, digest);
      DecodedIs(bytes, image);
      if image.Err? {
        return Rejected(DecodeError(image.error));
      }
      r := Admit(image.value);
      if !r.Finished? {
        return;
      }
      var status := StoreImage(bytes);
      if status.Rejected? || status.Stopped? {
        return status;
      }
      var pointed := ReplacePointer(Some(status.value));
      return if pointed == Done then status else if pointed == Crashed then Stopped else Rejected(Io);
    }

    lemma DecodedIs(bytes: seq<u8>, image: Result<GenerationImage, GenerationError>)
      requires image.Ok? ==> WellFormed(image.value, digest) && Encoded(image.value) == bytes
      requires forall other :: WellFormed(other, digest) && Encoded(other) == bytes ==> image == Ok(other)
      ensures image.Ok? <==> Decodable(bytes, digest)
      ensures image.Ok? ==> ImageOf(bytes, digest) == image.value
    {
      hide WellFormed, Encoded;
    }

    /** Writes an admitted image under its name unless it is there already. */
    method StoreImage(bytes: seq<u8>) returns (r: Outcome<Digest>)
      requires Valid() && Decodable(bytes, digest)
      requires ImageOf(bytes, digest).parent == current.GetOr(NO_GENERATION)
      requires Younger(ImageOf(bytes, digest))
      modifies this`tick, this`serial, this`generations, this`temporaries, this`imagesSynced
      ensures Valid()
      ensures r.Finished? ==> temporaries == old(temporaries)
      ensures r.Finished? && (sha(bytes) !in old(generations) || old(imagesSynced)) ==> imagesSynced
      ensures generations == old(generations) || (old(Acceptable(bytes)) && generations == old(generations)[sha(bytes) := bytes])
      ensures r.Finished? ==> r.value == sha(bytes) && old(Acceptable(bytes)) && sha(bytes) in generations
      ensures FaultFree() ==> (r.Finished? <==> old(Acceptable(bytes)))
      ensures r.Rejected? ==> r.error == Io || old(Unpublishable(bytes, r.error))
      ensures FaultFree() ==> !r.Stopped? && r != Rejected(Io)
      ensures old(tick) <= tick && (r.Stopped? <==> StoppedSince(old(tick)))
    {
      hide Sound, Encoded, WellFormed, ParentFits, Decodable, PointerText, ToLe, Unreadable;
      var d := sha(bytes);
      if d in generations {
        return if generations[d] == bytes then Finished(d) else Rejected(DigestCollision);
      }
      AcceptableFits(bytes);
      var status := PublishImmutable(d, bytes);
      if status == Done {
        status := SyncImages();
      }
      return if status == Done then Finished(d) else if status == Crashed then Stopped else Rejected(Io);
    }

    /** Whether the image names the active one as its parent and is younger. */
    method Admit(image: GenerationImage) returns (r: Outcome<Digest>)
      requires Valid()
      modifies this`tick
      ensures r.Finished? ==> image.parent == current.GetOr(NO_GENERATION)
      ensures r.Finished? ==> Younger(image)
      ensures FaultFree() ==> (r.Finished? <==> image.parent == current.GetOr(NO_GENERATION) && Younger(image))
      ensures r.Rejected? ==>
                || r.error == Io
                || (r.error == ParentMismatch && image.parent != current.GetOr(NO_GENERATION))
                || (r.error == GenerationNotMonotonic && image.parent == current.GetOr(NO_GENERATION) && !Younger(image))
      ensures FaultFree() ==> !r.Stopped? && r != Rejected(Io)
      ensures old(tick) <= tick && (r.Stopped? <==> StoppedSince(old(tick)))
    {
      hide Sound, Encoded, WellFormed, PointerText, ToLe;
      var active := Active();
      if !active.Finished? {
        return if active.Stopped? then Stopped else Rejected(active.error);
      }
      if image.parent != active.value.GetOr(NO_GENERATION) {
        return Rejected(ParentMismatch);
      }
      if active.value.Some? {
        var parent := LoadGeneration(active.value.value);
        if !parent.Finished? {
          return if parent.Stopped? then Stopped else Rejected(parent.error);
        }
        if parent.value.generation >= image.generation {
          return Rejected(GenerationNotMonotonic);
        }
      } else if image.generation == 0 {
        return Rejected(GenerationNotMonotonic);
      }
      return Finished(image.parent);
    }

    ghost function ParentOf(d: Digest): Option<Digest>
      requires Valid() && d in generations
      reads this
    {
      var parent := ImageOf(generations[d], digest).parent;
      if parent == NO_GENERATION then None else Some(parent)
    }

    /**
     * Moves the pointer back to the parent of the expected image. It never changes the images, and
     * without faults it refuses only another active image: the parent is never missing.
     */
    method Rollback(expected: Digest) returns (r: Outcome<Option<Digest>>)
      requires Valid()
      modifies this
      ensures Valid() && generations == old(generations)
      ensures current == old(current) || (old(current) == Some(expected) && current == old(ParentOf(expected)))
      ensures r.Finished? ==> old(current) == Some(expected) && current == old(ParentOf(expected)) == r.value
      ensures r.Finished? ==> rootSynced && imagesSynced == old(imagesSynced) && temporaries == old(temporaries)
      ensures FaultFree() ==> (r.Finished? <==> old(current) == Some(expected))
      ensures r.Rejected? ==> r.error == Io || r.error == ParentMissing || (r.error == ActiveMismatch && old(current) != Some(expected))
      ensures FaultFree() ==> !r.Stopped? && r != Rejected(Io) && r != Rejected(ParentMissing)
      ensures old(tick) <= tick && (r.Stopped? <==> StoppedSince(old(tick)))
    {
      hide Sound, Encoded, WellFormed, PointerText, ToLe;
      var active := Active();
      if !active.Finished? {
        return if active.Stopped? then Stopped else Rejected(active.error);
      }
      if active.value != Some(expected) {
        return Rejected(ActiveMismatch);
      }
      var image := LoadGeneration(expected);
      if !image.Finished? {
        return if image.Stopped? then Stopped else Rejected(image.error);
      }
      var target: Option<Digest> := None;
      if image.value.parent != NO_GENERATION {
        ParentIsStored(expected);
        var parent := LoadGeneration(image.value.parent);
        if !parent.Finished? {
          return if parent.Stopped? then Stopped else Rejected(ParentMissing);
        }
        target := Some(image.value.parent);
      }
      var status := ReplacePointer(target);
      return if status == Done then Finished(target) else if status == Crashed then Stopped else Rejected(Io);
    }

    lemma ParentIsStored(d: Digest)
      requires Valid() && d in generations
      ensures var parent := ImageOf(generations[d], digest).parent;
              parent == NO_GENERATION || parent in generations
    {
    }

    /** Rolling back what was just published gives back the pointer there was. */
    method PublishAndRollBack(bytes: seq<u8>) returns (restored: bool)
      requires Valid()
      modifies this
      ensures Valid() && (restored ==> current == old(current))
      ensures FaultFree() ==> (restored <==> old(Acceptable(bytes)))
    {
      hide Sound, Encoded;
      CurrentFits();
      var published := Publish(bytes);
      if !published.Finished? {
        return false;
      }
      assert generations[published.value] == bytes;
      var back := Rollback(published.value);
      return back.Finished?;
    }
  }
}
