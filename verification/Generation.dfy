/** The canonical byte image of a ledger generation, src/generation.rs. */
module Generation {
  import opened Bytes
  import opened Ledger
  import opened PackageImages
  import opened PackageTransactions
  import opened Results

  const GENERATION_FORMAT: nat := 1
  const GENERATION_MAGIC: seq<u8> := [65, 82, 65, 67, 72, 71, 69, 78]
  const GENERATION_HEADER_BYTES: nat := 68
  const GENERATION_RECORD_BYTES: nat := 12
  const DIGEST_BYTES: nat := 32

  type Digest = seq<u8>

  datatype GenerationImage = GenerationImage(
    generation: u64, stateDigest: u64, parent: Digest, packages: seq<ResolvedPackage>)

  datatype GenerationError = BufferTooSmall | InvalidHeader | InvalidLength | InvalidPackage | StateDigestMismatch | NonCanonical

  /** The image of a canonical state, with its digest. */
  ghost predicate WellFormed(image: GenerationImage, digest: seq<ResolvedPackage> -> u64) {
    && |image.parent| == DIGEST_BYTES
    && |image.packages| <= MAX_INSTALLED_PACKAGES && Canonical(image.packages)
    && image.stateDigest == digest(image.packages)
  }

  function EncodedLen(image: GenerationImage): nat {
    GENERATION_HEADER_BYTES + |image.packages| * GENERATION_RECORD_BYTES
  }

  // ----- the layout -----

  ghost function Header(image: GenerationImage): (h: seq<u8>)
    requires |image.parent| == DIGEST_BYTES
    ensures |h| == GENERATION_HEADER_BYTES
  {
    GENERATION_MAGIC + ToLe(2, GENERATION_FORMAT) + ToLe(2, GENERATION_HEADER_BYTES)
    + ToLe(8, image.generation) + ToLe(8, image.stateDigest) + image.parent
    + ToLe(2, |image.packages|) + ToLe(2, GENERATION_RECORD_BYTES) + ToLe(4, EncodedLen(image))
  }

  /** An image opens with "ARACHGEN", the format number and the size of its header. */
  lemma HeaderOpens(image: GenerationImage)
    requires |image.parent| == DIGEST_BYTES
    ensures Header(image)[..12] == [65, 82, 65, 67, 72, 71, 69, 78, 1, 0, 68, 0]
    ensures Header(image)[28..60] == image.parent && Header(image)[62..64] == [12, 0]
  {
    SmallLe(1);
    SmallLe(68);
    SmallLe(12);
    var h := Header(image);
    var rest := ToLe(2, |image.packages|) + ToLe(2, GENERATION_RECORD_BYTES) + ToLe(4, EncodedLen(image));
    var front := GENERATION_MAGIC + ToLe(2, GENERATION_FORMAT) + ToLe(2, GENERATION_HEADER_BYTES)
                 + ToLe(8, image.generation) + ToLe(8, image.stateDigest);
    assert |front| == 28 && h == front + image.parent + rest;
    assert h[28..60] == image.parent && h[60..] == rest;
    assert h[62..64] == rest[2..4];
  }

  ghost function Record(p: ResolvedPackage): (b: seq<u8>)
    ensures |b| == GENERATION_RECORD_BYTES
  {
    ToLe(8, p.nameHash) + ToLe(2, p.versionIdx) + [0, 0]
  }

  ghost function Records(ps: seq<ResolvedPackage>): (b: seq<u8>)
    ensures |b| == |ps| * GENERATION_RECORD_BYTES
  {
    if ps == [] then [] else Records(ps[..|ps| - 1]) + Record(ps[|ps| - 1])
  }

  ghost function Encoded(image: GenerationImage): (b: seq<u8>)
    requires |image.parent| == DIGEST_BYTES
    ensures |b| == EncodedLen(image)
  {
    Header(image) + Records(image.packages)
  }

  // ----- encoding into a buffer -----

  method WriteAt(output: array<u8>, offset: nat, bytes: seq<u8>)
    requires offset + |bytes| <= output.Length
    modifies output
    ensures output[..offset + |bytes|] == old(output[..offset]) + bytes
    ensures forall k :: offset + |bytes| <= k < output.Length ==> output[k] == old(output[k])
  {
    forall k | 0 <= k < |bytes| {
      output[offset + k] := bytes[k];
    }
  }

  method WriteHeader(image: GenerationImage, output: array<u8>)
    requires |image.parent| == DIGEST_BYTES && GENERATION_HEADER_BYTES <= output.Length
    modifies output
    ensures output[..GENERATION_HEADER_BYTES] == Header(image)
    ensures output[GENERATION_HEADER_BYTES..] == old(output[GENERATION_HEADER_BYTES..])
  {
    hide ToLe;
    ghost var rest := output[GENERATION_HEADER_BYTES..];
    WriteAt(output, 0, GENERATION_MAGIC);
    WriteAt(output, 8, ToLe(2, GENERATION_FORMAT));
    WriteAt(output, 10, ToLe(2, GENERATION_HEADER_BYTES));
    WriteAt(output, 12, ToLe(8, image.generation));
    WriteAt(output, 20, ToLe(8, image.stateDigest));
    WriteAt(output, 28, image.parent);
    WriteAt(output, 60, ToLe(2, |image.packages|));
    WriteAt(output, 62, ToLe(2, GENERATION_RECORD_BYTES));
    WriteAt(output, 64, ToLe(4, EncodedLen(image)));
    assert output[GENERATION_HEADER_BYTES..] == rest;
  }

  /** Walks along the packages with the name before. */
  method ValidatePackages(ps: seq<ResolvedPackage>) returns (ok: bool)
    ensures ok <==> Canonical(ps)
  {
    var previous: Option<u64> := None;
    for i := 0 to |ps|
      invariant Canonical(ps[..i]) && previous == if i == 0 then None else Some(ps[i - 1].nameHash)
    {
      if ps[i].nameHash == 0 || ps[i].versionIdx == 0 || (previous.Some? && previous.value >= ps[i].nameHash) {
        return false;
      }
      assert ps[..i + 1] == ps[..i] + [ps[i]];
      previous := Some(ps[i].nameHash);
    }
    assert ps[..|ps|] == ps;
    return true;
  }

  /** Writes the image to the front of `output`, or refuses it and leaves the buffer alone. */
  method Encode(image: GenerationImage, output: array<u8>) returns (r: Result<nat, GenerationError>)
    requires |image.parent| == DIGEST_BYTES
    modifies output
    ensures r == if !Canonical(image.packages) then Err(InvalidPackage)
                 else if output.Length < EncodedLen(image) then Err(BufferTooSmall)
                 else Ok(EncodedLen(image))
    ensures r.Err? ==> output[..] == old(output[..])
    ensures r.Ok? ==> output[..r.value] == Encoded(image) && output[r.value..] == old(output[r.value..])
  {
    var valid := ValidatePackages(image.packages);
    if !valid {
      return Err(InvalidPackage);
    }
    var length := EncodedLen(image);
    if output.Length < length {
      return Err(BufferTooSmall);
    }
    ghost var rest := output[length..];
    forall k | 0 <= k < length {
      output[k] := 0;
    }
    assert output[length..] == rest;
    hide Canonical, Header, Records, Record;
    WriteHeader(image, output);
    assert forall k :: GENERATION_HEADER_BYTES <= k < output.Length ==> output[k] == output[GENERATION_HEADER_BYTES..][k - GENERATION_HEADER_BYTES];
    WriteRecords(image.packages, output, length);
    assert output[..length] == Encoded(image);
    return Ok(length);
  }

  method WriteRecords(ps: seq<ResolvedPackage>, output: array<u8>, length: nat)
    requires length == GENERATION_HEADER_BYTES + |ps| * GENERATION_RECORD_BYTES <= output.Length
    requires forall k :: GENERATION_HEADER_BYTES <= k < length ==> output[k] == 0
    modifies output
    ensures output[..length] == old(output[..GENERATION_HEADER_BYTES]) + Records(ps)
    ensures output[length..] == old(output[length..])
  {
    hide Records, Record;
    var i := 0;
    assert ps[..0] == [];
    NoRecords();
    ghost var header, rest := output[..GENERATION_HEADER_BYTES], output[length..];
    while i < |ps|
      invariant 0 <= i <= |ps|
      invariant output[..GENERATION_HEADER_BYTES + i * GENERATION_RECORD_BYTES] == header + Records(ps[..i])
      invariant forall k :: GENERATION_HEADER_BYTES + i * GENERATION_RECORD_BYTES <= k < length ==> output[k] == 0
      invariant output[length..] == rest
    {
      WriteRecord(ps[i], output, GENERATION_HEADER_BYTES + i * GENERATION_RECORD_BYTES, length);
      RecordsNext(ps, i);
      i := i + 1;
    }
    assert ps[..i] == ps;
  }

  lemma NoRecords()
    ensures Records([]) == []
  {
  }

  lemma RecordsNext(ps: seq<ResolvedPackage>, i: nat)
    requires i < |ps|
    ensures Records(ps[..i + 1]) == Records(ps[..i]) + Record(ps[i])
  {
    assert ps[..i + 1][..i] == ps[..i];
  }

  method WriteRecord(p: ResolvedPackage, output: array<u8>, offset: nat, length: nat)
    requires offset + GENERATION_RECORD_BYTES <= length <= output.Length
    requires forall k :: offset <= k < length ==> output[k] == 0
    modifies output
    ensures output[..offset + GENERATION_RECORD_BYTES] == old(output[..offset]) + Record(p)
    ensures forall k :: offset + GENERATION_RECORD_BYTES <= k < length ==> output[k] == 0
    ensures output[length..] == old(output[length..])
  {
    ghost var tail := output[offset + 10..];
    ghost var front := output[..offset];
    WriteAt(output, offset, ToLe(8, p.nameHash));
    WriteAt(output, offset + 8, ToLe(2, p.versionIdx));
    assert output[offset + 10..] == tail;
    assert output[..offset + 12] == output[..offset + 10] + [output[offset + 10], output[offset + 11]];
    assert output[offset + 10] == tail[0] == 0 && output[offset + 11] == tail[1] == 0;
  }

  // ----- reading -----

  function Field(b: seq<u8>, offset: nat, n: nat): nat
    requires offset + n <= |b|
  {
    FromLe(b[offset..offset + n])
  }

  /** `v` is what a field of `n` bytes holds. */
  lemma FieldHolds(b: seq<u8>, offset: nat, n: nat, v: nat)
    requires offset + n <= |b| && v < Pow256(n)
    ensures Field(b, offset, n) == v <==> b[offset..offset + n] == ToLe(n, v)
  {
    FromToLe(n, v);
    ToFromLe(b[offset..offset + n]);
  }

  predicate HasMagic(b: seq<u8>) {
    GENERATION_HEADER_BYTES <= |b| && b[..8] == GENERATION_MAGIC
  }

  /** Format, sizes and count agree with each other and with the length. */
  predicate LengthFits(b: seq<u8>)
    requires HasMagic(b)
  {
    var count := Field(b, 60, 2);
    var expected := GENERATION_HEADER_BYTES + count * GENERATION_RECORD_BYTES;
    && Field(b, 8, 2) == GENERATION_FORMAT && Field(b, 10, 2) == GENERATION_HEADER_BYTES
    && Field(b, 62, 2) == GENERATION_RECORD_BYTES && count <= MAX_INSTALLED_PACKAGES
    && Field(b, 64, 4) == expected && |b| == expected
  }

  /** The bytes open with the header of the image. */
  ghost predicate Opens(b: seq<u8>, image: GenerationImage)
    requires HasMagic(b)
  {
    && Field(b, 12, 8) == image.generation && Field(b, 20, 8) == image.stateDigest && b[28..60] == image.parent
    && Field(b, 60, 2) == |image.packages|
  }

  lemma HeaderParses(b: seq<u8>, image: GenerationImage)
    requires HasMagic(b) && LengthFits(b) && Opens(b, image)
    ensures |image.parent| == DIGEST_BYTES && b[..GENERATION_HEADER_BYTES] == Header(image)
  {
    Widths();
    FieldHolds(b, 8, 2, GENERATION_FORMAT);
    FieldHolds(b, 10, 2, GENERATION_HEADER_BYTES);
    FieldHolds(b, 12, 8, image.generation);
    FieldHolds(b, 20, 8, image.stateDigest);
    FieldHolds(b, 60, 2, |image.packages|);
    FieldHolds(b, 62, 2, GENERATION_RECORD_BYTES);
    FieldHolds(b, 64, 4, EncodedLen(image));
    hide FromLe, ToLe, Pow256;
    Cuts(b);
  }

  lemma Cuts(b: seq<u8>)
    requires GENERATION_HEADER_BYTES <= |b|
    ensures b[..GENERATION_HEADER_BYTES]
            == b[..8] + b[8..10] + b[10..12] + b[12..20] + b[20..28] + b[28..60] + b[60..62] + b[62..64] + b[64..68]
  {
  }

  lemma HeaderReads(image: GenerationImage, b: seq<u8>)
    requires |image.parent| == DIGEST_BYTES && |image.packages| <= MAX_INSTALLED_PACKAGES && b == Encoded(image)
    ensures HasMagic(b) && LengthFits(b) && Opens(b, image)
  {
    Widths();
    HeaderSlices(image, b);
    FieldHolds(b, 8, 2, GENERATION_FORMAT);
    FieldHolds(b, 10, 2, GENERATION_HEADER_BYTES);
    FieldHolds(b, 12, 8, image.generation);
    FieldHolds(b, 20, 8, image.stateDigest);
    FieldHolds(b, 60, 2, |image.packages|);
    FieldHolds(b, 62, 2, GENERATION_RECORD_BYTES);
    FieldHolds(b, 64, 4, EncodedLen(image));
  }

  lemma HeaderSlices(image: GenerationImage, b: seq<u8>)
    requires |image.parent| == DIGEST_BYTES && b == Encoded(image)
    ensures b[..8] == GENERATION_MAGIC && b[8..10] == ToLe(2, GENERATION_FORMAT)
    ensures b[10..12] == ToLe(2, GENERATION_HEADER_BYTES) && b[12..20] == ToLe(8, image.generation)
    ensures b[20..28] == ToLe(8, image.stateDigest) && b[28..60] == image.parent
    ensures b[60..62] == ToLe(2, |image.packages|) && b[62..64] == ToLe(2, GENERATION_RECORD_BYTES)
    ensures b[64..68] == ToLe(4, EncodedLen(image))
  {
    hide ToLe, Records;
  }

  function RecordOffset(i: nat): nat {
    GENERATION_HEADER_BYTES + i * GENERATION_RECORD_BYTES
  }

  /** Record `i` reads as `p` and its spare bytes are zero. */
  predicate Reads(b: seq<u8>, i: nat, p: ResolvedPackage)
    requires RecordOffset(i + 1) <= |b|
  {
    var offset := RecordOffset(i);
    && Field(b, offset, 8) == p.nameHash && Field(b, offset + 8, 2) == p.versionIdx
    && b[offset + 10] == 0 && b[offset + 11] == 0
  }

  lemma ReadsIsRecord(b: seq<u8>, i: nat, p: ResolvedPackage)
    requires RecordOffset(i + 1) <= |b|
    ensures Reads(b, i, p) <==> b[RecordOffset(i)..RecordOffset(i + 1)] == Record(p)
  {
    Widths();
    var o := RecordOffset(i);
    FieldHolds(b, o, 8, p.nameHash);
    FieldHolds(b, o + 8, 2, p.versionIdx);
    hide FromLe, ToLe, Pow256;
    var r := b[o..o + 12];
    assert r == b[o..o + 8] + b[o + 8..o + 10] + [b[o + 10], b[o + 11]];
    if r == Record(p) {
      assert r[..8] == ToLe(8, p.nameHash) && r[8..10] == ToLe(2, p.versionIdx) && r[10] == 0 && r[11] == 0;
      assert r[..8] == b[o..o + 8] && r[8..10] == b[o + 8..o + 10];
    }
  }

  /** The records of the bytes are those of `ps` exactly when each reads as its package. */
  lemma {:induction false} RecordsRead(b: seq<u8>, ps: seq<ResolvedPackage>)
    requires RecordOffset(|ps|) <= |b|
    ensures b[GENERATION_HEADER_BYTES..RecordOffset(|ps|)] == Records(ps)
            <==> forall i :: 0 <= i < |ps| ==> Reads(b, i, ps[i])
  {
    hide Reads, Record, Records;
    if ps == [] {
      NoRecords();
    } else {
      var n := |ps| - 1;
      RecordsRead(b, ps[..n]);
      ReadsIsRecord(b, n, ps[n]);
      RecordsSplit(ps);
      var front, last := b[GENERATION_HEADER_BYTES..RecordOffset(n)], b[RecordOffset(n)..RecordOffset(n + 1)];
      assert b[GENERATION_HEADER_BYTES..RecordOffset(n + 1)] == front + last;
      SplitEqual(front, last, Records(ps[..n]), Record(ps[n]));
      assert forall i :: 0 <= i < n ==> ps[..n][i] == ps[i];
    }
  }

  lemma RecordsSplit(ps: seq<ResolvedPackage>)
    requires ps != []
    ensures Records(ps) == Records(ps[..|ps| - 1]) + Record(ps[|ps| - 1])
  {
  }

  lemma SplitEqual(a: seq<u8>, b: seq<u8>, c: seq<u8>, d: seq<u8>)
    requires |a| == |c|
    ensures a + b == c + d <==> a == c && b == d
  {
    assert a == (a + b)[..|a|] && b == (a + b)[|a|..];
    assert c == (c + d)[..|a|] && d == (c + d)[|a|..];
  }

  // ----- decoding -----

  /** Reads the records, refusing spare bytes that are not zero. */
  method ReadRecords(b: seq<u8>, count: nat) returns (r: Option<seq<ResolvedPackage>>)
    requires RecordOffset(count) <= |b|
    ensures r.Some? ==> |r.value| == count && forall i :: 0 <= i < count ==> Reads(b, i, r.value[i])
    ensures r.None? ==> forall ps :: |ps| == count ==> !AllRead(b, ps)
  {
    Widths();
    var ps := [];
    while |ps| < count
      invariant |ps| <= count && forall i :: 0 <= i < |ps| ==> Reads(b, i, ps[i])
      decreases count - |ps|
    {
      var offset := RecordOffset(|ps|);
      FromLeBound(b[offset..offset + 8]);
      FromLeBound(b[offset + 8..offset + 10]);
      var p := ResolvedPackage(Field(b, offset, 8), Field(b, offset + 8, 2));
      if b[offset + 10] != 0 || b[offset + 11] != 0 {
        ghost var at := |ps|;
        forall qs: seq<ResolvedPackage> | |qs| == count ensures !AllRead(b, qs) {
          assert !Reads(b, at, qs[at]);
        }
        return None;
      }
      ps := ps + [p];
    }
    return Some(ps);
  }

  /** The records of the bytes are those of `ps`. */
  ghost predicate ReadsAs(b: seq<u8>, ps: seq<ResolvedPackage>) {
    HasMagic(b) && LengthFits(b) && |ps| == Field(b, 60, 2) && AllRead(b, ps)
  }

  /** What is wrong with bytes that are refused; the first fault counts. */
  ghost predicate Unreadable(b: seq<u8>, digest: seq<ResolvedPackage> -> u64, e: GenerationError) {
    match e
    case InvalidHeader => !HasMagic(b)
    case InvalidLength => HasMagic(b) && !LengthFits(b)
    case NonCanonical => HasMagic(b) && LengthFits(b) && forall ps :: !ReadsAs(b, ps)
    case InvalidPackage => exists ps :: ReadsAs(b, ps) && !Canonical(ps)
    case StateDigestMismatch => exists ps :: ReadsAs(b, ps) && Canonical(ps) && Field(b, 20, 8) != digest(ps)
    case BufferTooSmall => false
  }

  /** No bytes are refused for two reasons. */
  lemma UnreadableOnce(b: seq<u8>, digest: seq<ResolvedPackage> -> u64, e: GenerationError, f: GenerationError)
    requires Unreadable(b, digest, e) && Unreadable(b, digest, f)
    ensures e == f
  {
    hide Canonical, HasMagic, LengthFits, Field;
    forall ps, other | ReadsAs(b, ps) && ReadsAs(b, other) ensures ps == other {
      SameReads(b, ps);
    }
  }

  /** Accepts exactly the encodings of well-formed images, and returns the image. */
  method Decode(b: seq<u8>, digest: seq<ResolvedPackage> -> u64) returns (r: Result<GenerationImage, GenerationError>)
    ensures r.Ok? ==> WellFormed(r.value, digest) && Encoded(r.value) == b
    ensures forall image :: WellFormed(image, digest) && Encoded(image) == b ==> r == Ok(image)
    ensures r.Err? ==> Unreadable(b, digest, r.error)
  {
    hide Canonical, Header, Records, Field, Reads;
    EncodingsParse(b, digest);
    if |b| < GENERATION_HEADER_BYTES || b[..8] != GENERATION_MAGIC {
      return Err(InvalidHeader);
    }
    if !LengthFits(b) {
      return Err(InvalidLength);
    }
    var count := Field(b, 60, 2);
    var packages := ReadRecords(b, count);
    if packages.None? {
      assert forall ps :: !ReadsAs(b, ps);
      return Err(NonCanonical);
    }
    assert ReadsAs(b, packages.value);
    SameReads(b, packages.value);
    var valid := ValidatePackages(packages.value);
    if !valid {
      return Err(InvalidPackage);
    }
    HeaderWidths(b);
    var stateDigest := Field(b, 20, 8);
    if stateDigest != digest(packages.value) {
      return Err(StateDigestMismatch);
    }
    var image := GenerationImage(Field(b, 12, 8), stateDigest, b[28..60], packages.value);
    HeaderParses(b, image);
    RecordsRead(b, packages.value);
    assert b == b[..GENERATION_HEADER_BYTES] + b[GENERATION_HEADER_BYTES..RecordOffset(count)];
    return Ok(image);
  }

  lemma HeaderWidths(b: seq<u8>)
    requires GENERATION_HEADER_BYTES <= |b|
    ensures Field(b, 12, 8) <= MAX_U64 && Field(b, 20, 8) <= MAX_U64
  {
    Widths();
    FromLeBound(b[12..20]);
    FromLeBound(b[20..28]);
  }

  /** Whatever image the bytes encode, its fields and records are what is read. */
  lemma EncodingsParse(b: seq<u8>, digest: seq<ResolvedPackage> -> u64)
    ensures forall image :: WellFormed(image, digest) && Encoded(image) == b ==>
              HasMagic(b) && LengthFits(b) && Opens(b, image) && AllRead(b, image.packages)
  {
    forall image | WellFormed(image, digest) && Encoded(image) == b
      ensures HasMagic(b) && LengthFits(b) && Opens(b, image) && AllRead(b, image.packages)
    {
      HeaderReads(image, b);
      assert b[GENERATION_HEADER_BYTES..RecordOffset(|image.packages|)] == Records(image.packages);
      RecordsRead(b, image.packages);
    }
  }

  ghost predicate AllRead(b: seq<u8>, ps: seq<ResolvedPackage>) {
    RecordOffset(|ps|) <= |b| && forall i :: 0 <= i < |ps| ==> Reads(b, i, ps[i])
  }

  lemma SameReads(b: seq<u8>, ps: seq<ResolvedPackage>)
    requires AllRead(b, ps)
    ensures forall qs :: |qs| == |ps| && AllRead(b, qs) ==> qs == ps
  {
    forall qs | |qs| == |ps| && AllRead(b, qs) ensures qs == ps {
      forall i | 0 <= i < |ps| ensures qs[i] == ps[i] {
        assert Reads(b, i, ps[i]) && Reads(b, i, qs[i]);
      }
    }
  }

  // ----- ledgers -----

  /** The durable image of a ledger. */
  method FromLedger(ledger: PackageLedger, parent: Digest) returns (image: GenerationImage)
    requires ledger.Valid() && |parent| == DIGEST_BYTES
    ensures WellFormed(image, ledger.digest) && Restorable(image.generation, image.packages)
    ensures image == GenerationImage(ledger.generation, ledger.Authority().stateDigest, parent, ledger.Installed())
  {
    return GenerationImage(ledger.generation, ledger.digest(ledger.Installed()), parent, ledger.Installed());
  }

  /** Only a generation 0 that holds packages decodes and still cannot be restored. */
  lemma RestorableExactly(image: GenerationImage, digest: seq<ResolvedPackage> -> u64)
    requires WellFormed(image, digest)
    ensures Restorable(image.generation, image.packages) <==> !(image.generation == 0 && image.packages != [])
  {
  }

  /** Such an image exists, but no ledger has it. */
  lemma UnrestorableImage(digest: seq<ResolvedPackage> -> u64, p: ResolvedPackage, parent: Digest)
    requires p.nameHash != 0 && p.versionIdx != 0 && |parent| == DIGEST_BYTES
    ensures var image := GenerationImage(0, digest([p]), parent, [p]);
            WellFormed(image, digest) && !Restorable(image.generation, image.packages)
  {
  }

  /** Every reachable ledger survives the trip through its bytes with its packages and its authority. */
  method RoundTrip(ledger: PackageLedger, parent: Digest) returns (restored: Result<PackageLedger, PackageError>)
    requires ledger.Valid() && |parent| == DIGEST_BYTES
    ensures restored.Ok? && fresh(restored.value) && restored.value.Valid()
    ensures restored.value.Installed() == ledger.Installed() && restored.value.Authority() == ledger.Authority()
  {
    hide Canonical;
    var image := FromLedger(ledger, parent);
    var buffer := new u8[EncodedLen(image)];
    var length := Encode(image, buffer);
    var decoded := Decode(buffer[..length.value], ledger.digest);
    restored := PackageLedger.Restore(ledger.digest, decoded.value.generation, decoded.value.packages);
  }
}
