/**
 * Encoding and decoding of native payloads, src/binary.rs. The hash is any function into 32 bytes,
 * and `utf8` is whatever byte strings the platform takes for text.
 */
module Payload {
  import opened Bytes
  import opened PayloadFormat
  import opened Pointer
  import opened Results

  // ----- encoding -----

  method EncodeFile(f: PayloadFile, sha: Sha) returns (b: seq<u8>)
    ensures b == FileBytes(f, sha)
  {
    b := ToLe(2, |f.path|);
    b := b + ToLe(4, f.mode);
    b := b + ToLe(8, |f.bytes|);
    b := b + sha(f.bytes);
    b := b + f.path;
    b := b + f.bytes;
  }

  /** Whether the files are well formed, and how many bytes they add. */
  method MeasureFiles(fs: seq<PayloadFile>, start: nat, sha: Sha) returns (total: Option<nat>)
    requires ShaFits(sha)
    ensures total.Some? ==> total.value == start + |FilesBytes(fs, sha)|
    ensures total.Some? <==>
            && (forall i :: 0 <= i < |fs| ==> GoodFile(fs[i]))
            && (forall i, j :: 0 <= i < j < |fs| ==> fs[i].path != fs[j].path)
            && (|fs| > 0 ==> start + |FilesBytes(fs, sha)| <= MAX_OUTPUT_BYTES)
  {
    hide SafePath, FileBytes;
    var seen, size: nat := {}, start;
    assert fs[..0] == [];
    for i := 0 to |fs|
      invariant forall k :: 0 <= k < i ==> GoodFile(fs[k])
      invariant seen == set k | 0 <= k < i :: fs[k].path
      invariant forall j, k :: 0 <= j < k < i ==> fs[j].path != fs[k].path
      invariant size == start + |FilesBytes(fs[..i], sha)|
      invariant i > 0 ==> size <= MAX_OUTPUT_BYTES
    {
      var f := fs[i];
      if !SafePath(f.path) {
        return None;
      }
      if f.path in seen {
        return None;
      }
      if f.mode > MAX_MODE || |f.bytes| > MAX_OUTPUT_BYTES {
        return None;
      }
      FilesNext(fs, i, sha);
      FileLength(f, sha);
      size := size + 46 + |f.path| + |f.bytes|;
      if size > MAX_OUTPUT_BYTES {
        FilesMonotone(fs, i + 1, sha);
        return None;
      }
      seen := seen + {f.path};
    }
    assert fs[..|fs|] == fs;
    return Some(size);
  }

  lemma FilesNext(fs: seq<PayloadFile>, i: nat, sha: Sha)
    requires i < |fs|
    ensures FilesBytes(fs[..i + 1], sha) == FilesBytes(fs[..i], sha) + FileBytes(fs[i], sha)
  {
    assert fs[..i + 1][..i] == fs[..i];
  }

  lemma FileLength(f: PayloadFile, sha: Sha)
    requires ShaFits(sha)
    ensures |FileBytes(f, sha)| == 46 + |f.path| + |f.bytes|
  {
  }

  lemma {:induction false} FilesMonotone(fs: seq<PayloadFile>, i: nat, sha: Sha)
    requires i <= |fs|
    ensures |FilesBytes(fs[..i], sha)| <= |FilesBytes(fs, sha)|
    decreases |fs| - i
  {
    if i == |fs| {
      assert fs[..i] == fs;
    } else {
      FilesNext(fs, i, sha);
      FilesMonotone(fs, i + 1, sha);
    }
  }

  lemma HeadLength(r: PackageRecord, count: nat, metadata: seq<u8>, sourceLock: seq<u8>)
    requires |metadata| == DIGEST_LENGTH && |sourceLock| == DIGEST_LENGTH
    ensures |Head(r, count, metadata, sourceLock)| == PAYLOAD_HEADER_BYTES + |r.name| + |r.version|
  {
  }

  /** Produces the container exactly for what is encodable. */
  method Encode(r: PackageRecord, fs: seq<PayloadFile>, sha: Sha) returns (b: Option<seq<u8>>)
    requires ShaFits(sha)
    ensures b.Some? <==> Encodable(r, fs, sha)
    ensures b.Some? ==> b.value == Container(r, fs, sha)
    ensures b.Some? ==> forall i :: 0 <= i < |fs| ==> StaysInside(fs[i].path)
  {
    hide StaysInside, SafePath, FileBytes, Head, Printable, IsHex, ValidDigest, ValidVersion, FilesBytes;
    NoFiles(sha);
    if fs == [] || |fs| > MAX_PAYLOAD_FILES {
      return None;
    }
    if !ValidDigest(r.metadata) || !ValidDigest(r.sourceLock) {
      return None;
    }
    if r.name == [] || |r.name| > 0xFFFF || !Printable(r.name) || !ValidVersion(r.version) {
      return None;
    }
    RecordDigests(r);
    var metadata, sourceLock := Unhex(r.metadata), Unhex(r.sourceLock);
    HeadLength(r, |fs|, metadata, sourceLock);
    var total := MeasureFiles(fs, PAYLOAD_HEADER_BYTES + |r.name| + |r.version|, sha);
    if total.None? {
      return None;
    }
    var output := EncodeHead(r, |fs|, metadata, sourceLock);
    assert fs[..0] == [];
    for i := 0 to |fs|
      invariant output == Head(r, |fs|, metadata, sourceLock) + FilesBytes(fs[..i], sha)
    {
      var file := EncodeFile(fs[i], sha);
      FilesNext(fs, i, sha);
      output := output + file;
    }
    assert fs[..|fs|] == fs;
    forall i | 0 <= i < |fs| ensures StaysInside(fs[i].path) {
      SafePathStaysInside(fs[i].path);
    }
    return Some(output);
  }

  lemma RecordDigests(r: PackageRecord)
    requires GoodRecord(r)
    ensures ValidDigest(r.metadata) && ValidDigest(r.sourceLock)
    ensures |r.metadata| == 64 && IsHex(r.metadata) && |r.sourceLock| == 64 && IsHex(r.sourceLock)
  {
  }

  method EncodeHead(r: PackageRecord, count: nat, metadata: seq<u8>, sourceLock: seq<u8>) returns (b: seq<u8>)
    ensures b == Head(r, count, metadata, sourceLock)
  {
    b := PAYLOAD_MAGIC;
    b := b + ToLe(2, BINARY_PAYLOAD_FORMAT);
    b := b + ToLe(2, |r.name|);
    b := b + ToLe(2, |r.version|);
    b := b + ToLe(4, r.release);
    b := b + ToLe(4, count);
    b := b + metadata;
    b := b + sourceLock;
    b := b + r.name;
    b := b + r.version;
  }

  // ----- the cursor -----

  class PayloadCursor {
    const bytes: seq<u8>
    var offset: nat

    constructor (bytes: seq<u8>)
      ensures this.bytes == bytes && offset == 0
    {
      this.bytes, offset := bytes, 0;
    }

    /** The next `n` bytes, if there are as many. */
    method Take(n: nat) returns (b: Option<seq<u8>>)
      requires offset <= |bytes|
      modifies this
      ensures b.Some? <==> old(offset) + n <= |bytes|
      ensures b.Some? ==> offset == old(offset) + n && b.value == bytes[old(offset)..offset]
      ensures b.None? ==> offset == old(offset)
    {
      if offset + n > |bytes| {
        return None;
      }
      b := Some(bytes[offset..offset + n]);
      offset := offset + n;
    }

    /** The next number of `n` bytes. */
    method Number(n: nat) returns (v: Option<nat>)
      requires offset <= |bytes|
      modifies this
      ensures v.Some? <==> old(offset) + n <= |bytes|
      ensures v.Some? ==> offset == old(offset) + n && v.value < Pow256(n) && bytes[old(offset)..offset] == ToLe(n, v.value)
      ensures v.None? ==> offset == old(offset)
    {
      var b := Take(n);
      if b.None? {
        return None;
      }
      FromLeBound(b.value);
      ToFromLe(b.value);
      return Some(FromLe(b.value));
    }

    /** The next `n` bytes as printable text. */
    method TakeText(n: nat, utf8: Text -> bool) returns (t: Option<Text>)
      requires offset <= |bytes|
      modifies this
      ensures t.Some? <==> old(offset) + n <= |bytes| && utf8(bytes[old(offset)..old(offset) + n]) &&
                           Printable(bytes[old(offset)..old(offset) + n])
      ensures t.Some? ==> offset == old(offset) + n && t.value == bytes[old(offset)..offset]
      ensures offset <= |bytes|
    {
      t := Take(n);
      if t.Some? && !(utf8(t.value) && Printable(t.value)) {
        t := None;
      }
    }
  }

  // ----- decoding a file -----

  ghost predicate Readable(f: PayloadFile, utf8: Text -> bool) {
    GoodFile(f) && Printable(f.path) && utf8(f.path)
  }

  /** The bytes of `f` stand at `o`. */
  ghost predicate FileAt(b: seq<u8>, o: nat, f: PayloadFile, sha: Sha) {
    o + |FileBytes(f, sha)| <= |b| && b[o..o + |FileBytes(f, sha)|] == FileBytes(f, sha)
  }

  /** The same, field by field. */
  ghost predicate FieldsAt(b: seq<u8>, o: nat, f: PayloadFile, sha: Sha) {
    var p := o + 46 + |f.path|;
    && p + |f.bytes| <= |b|
    && b[o..o + 2] == ToLe(2, |f.path|) && b[o + 2..o + 6] == ToLe(4, f.mode) && b[o + 6..o + 14] == ToLe(8, |f.bytes|)
    && b[o + 14..o + 46] == sha(f.bytes) && b[o + 46..p] == f.path && b[p..p + |f.bytes|] == f.bytes
  }

  lemma FieldsAreFile(b: seq<u8>, o: nat, f: PayloadFile, sha: Sha)
    requires ShaFits(sha)
    ensures FileAt(b, o, f, sha) <==> FieldsAt(b, o, f, sha)
  {
    hide ToLe, FileBytes;
    var n := |FileBytes(f, sha)|;
    FileLength(f, sha);
    if o + n <= |b| {
      var s, p := b[o..o + n], 46 + |f.path|;
      Within(b, o, n, 0, 2);
      Within(b, o, n, 2, 6);
      Within(b, o, n, 6, 14);
      Within(b, o, n, 14, 46);
      Within(b, o, n, 46, p);
      Within(b, o, n, p, n);
      assert s[..2] == s[0..2] && s[p..] == s[p..n];
      FileParts(s, f, sha);
    }
  }

  lemma Within(b: seq<u8>, o: nat, n: nat, i: nat, j: nat)
    requires i <= j <= n && o + n <= |b|
    ensures b[o..o + n][i..j] == b[o + i..o + j]
  {
    var s, t := b[o..o + n][i..j], b[o + i..o + j];
    assert forall k :: 0 <= k < |s| ==> s[k] == b[o..o + n][i + k] == b[o + i + k] == t[k];
  }

  /** A string of the right length is the file's exactly when its parts are the fields. */
  lemma FileParts(s: seq<u8>, f: PayloadFile, sha: Sha)
    requires ShaFits(sha) && |s| == 46 + |f.path| + |f.bytes|
    ensures s == FileBytes(f, sha) <==>
            && s[..2] == ToLe(2, |f.path|) && s[2..6] == ToLe(4, f.mode) && s[6..14] == ToLe(8, |f.bytes|)
            && s[14..46] == sha(f.bytes) && s[46..46 + |f.path|] == f.path && s[46 + |f.path|..] == f.bytes
  {
    hide ToLe;
    SixParts(s, ToLe(2, |f.path|), ToLe(4, f.mode), ToLe(8, |f.bytes|), sha(f.bytes), f.path, f.bytes);
  }

  lemma SixParts(s: seq<u8>, a: seq<u8>, b: seq<u8>, c: seq<u8>, d: seq<u8>, e: seq<u8>, f: seq<u8>)
    requires |a| == 2 && |b| == 4 && |c| == 8 && |d| == 32 && |s| == 46 + |e| + |f|
    ensures s == a + b + c + d + e + f <==>
            && s[..2] == a && s[2..6] == b && s[6..14] == c && s[14..46] == d
            && s[46..46 + |e|] == e && s[46 + |e|..] == f
  {
    Split(s, a + b + c + d + e, f);
    Split(s[..46 + |e|], a + b + c + d, e);
    Split(s[..46], a + b + c, d);
    Split(s[..14], a + b, c);
    Split(s[..6], a, b);
    assert s[..46 + |e|][..46] == s[..46] && s[..46 + |e|][46..] == s[46..46 + |e|];
    assert s[..46][..14] == s[..14] && s[..46][14..] == s[14..46];
    assert s[..14][..6] == s[..6] && s[..14][6..] == s[6..14];
    assert s[..6][..2] == s[..2] && s[..6][2..] == s[2..6];
  }

  lemma Split(s: seq<u8>, a: seq<u8>, b: seq<u8>)
    requires |s| == |a| + |b|
    ensures s == a + b <==> s[..|a|] == a && s[|a|..] == b
  {
    if s[..|a|] == a && s[|a|..] == b {
      assert s == s[..|a|] + s[|a|..];
    }
  }

  lemma SameNumber(n: nat, v: nat, w: nat)
    requires v < Pow256(n) && w < Pow256(n) && ToLe(n, v) == ToLe(n, w)
    ensures v == w
  {
    FromToLe(n, v);
    FromToLe(n, w);
  }

  /** The numbers and the digest at the front of a file. */
  datatype FileHeader = FileHeader(pathLength: nat, mode: nat, size: nat, digest: seq<u8>)

  ghost predicate HeaderAt(b: seq<u8>, o: nat, h: FileHeader) {
    && o + 46 <= |b| && h.pathLength < Pow256(2) && h.mode < Pow256(4) && h.size < Pow256(8)
    && b[o..o + 2] == ToLe(2, h.pathLength) && b[o + 2..o + 6] == ToLe(4, h.mode) && b[o + 6..o + 14] == ToLe(8, h.size)
    && b[o + 14..o + 46] == h.digest
  }

  /** Only one file can follow from the header and the bytes. */
  lemma HeaderTells(b: seq<u8>, o: nat, h: FileHeader, f: PayloadFile, sha: Sha)
    requires HeaderAt(b, o, h) && FieldsAt(b, o, f, sha) && GoodFile(f)
    ensures h == FileHeader(|f.path|, f.mode, |f.bytes|, sha(f.bytes))
  {
    hide ToLe, SafePath, Pow256;
    SmallNumbers(f);
    SameNumber(2, h.pathLength, |f.path|);
    SameNumber(4, h.mode, f.mode);
    SameNumber(8, h.size, |f.bytes|);
  }

  lemma SmallNumbers(f: PayloadFile)
    requires GoodFile(f)
    ensures |f.path| < Pow256(2) && f.mode < Pow256(4) && |f.bytes| < Pow256(8)
  {
    Widths();
  }

  method DecodeFileHeader(cursor: PayloadCursor) returns (h: Option<FileHeader>)
    requires cursor.offset <= |cursor.bytes|
    modifies cursor
    ensures cursor.offset <= |cursor.bytes|
    ensures h.Some? <==> old(cursor.offset) + 46 <= |cursor.bytes|
    ensures h.Some? ==> HeaderAt(cursor.bytes, old(cursor.offset), h.value) && cursor.offset == old(cursor.offset) + 46
  {
    hide ToLe, Pow256;
    var pathLength := cursor.Number(2);
    if pathLength.None? {
      return None;
    }
    var mode := cursor.Number(4);
    if mode.None? {
      return None;
    }
    var size := cursor.Number(8);
    if size.None? {
      return None;
    }
    var digest := cursor.Take(DIGEST_LENGTH);
    if digest.None? {
      return None;
    }
    return Some(FileHeader(pathLength.value, mode.value, size.value, digest.value));
  }

  /** Reads the file at the cursor, if one that may be unpacked stands there. */
  method DecodeFile(cursor: PayloadCursor, sha: Sha, utf8: Text -> bool) returns (f: Option<PayloadFile>)
    requires cursor.offset <= |cursor.bytes| && ShaFits(sha)
    modifies cursor
    ensures cursor.offset <= |cursor.bytes|
    ensures f.Some? ==> Readable(f.value, utf8) && FileAt(cursor.bytes, old(cursor.offset), f.value, sha)
    ensures f.Some? ==> cursor.offset == old(cursor.offset) + |FileBytes(f.value, sha)|
    ensures forall g :: Readable(g, utf8) && FileAt(cursor.bytes, old(cursor.offset), g, sha) ==> f == Some(g)
  {
    hide ToLe, SafePath, Pow256, FileBytes, Printable, HeaderAt;
    var h := DecodeFileHeader(cursor);
    ghost var b, o := cursor.bytes, old(cursor.offset);
    ReadableTells(b, o, h, sha, utf8);
    if h.None? {
      return None;
    }
    var pathLength, mode, size := h.value.pathLength, h.value.mode, h.value.size;
    if pathLength == 0 || pathLength > MAX_PAYLOAD_PATH_BYTES || mode > MAX_MODE || size > MAX_OUTPUT_BYTES {
      return None;
    }
    var path := cursor.TakeText(pathLength, utf8);
    if path.None? {
      return None;
    }
    if !SafePath(path.value) {
      return None;
    }
    var data := cursor.Take(size);
    if data.None? {
      return None;
    }
    if sha(data.value) != h.value.digest {
      return None;
    }
    var file := PayloadFile(path.value, mode, data.value);
    HeaderFits(b, o, h.value, file, sha);
    FieldsAreFile(b, o, file, sha);
    FileLength(file, sha);
    return Some(file);
  }

  /** Whatever readable file stands at `o`, its fields are those that are read. */
  lemma ReadableTells(b: seq<u8>, o: nat, h: Option<FileHeader>, sha: Sha, utf8: Text -> bool)
    requires ShaFits(sha) && (h.Some? ==> HeaderAt(b, o, h.value)) && (h.None? ==> o + 46 > |b|)
    ensures forall g :: Readable(g, utf8) && FileAt(b, o, g, sha) ==>
              && h == Some(FileHeader(|g.path|, g.mode, |g.bytes|, sha(g.bytes)))
              && o + 46 + |g.path| + |g.bytes| <= |b|
              && b[o + 46..o + 46 + |g.path|] == g.path
              && b[o + 46 + |g.path|..o + 46 + |g.path| + |g.bytes|] == g.bytes
              && 0 < |g.path| <= MAX_PAYLOAD_PATH_BYTES
  {
    hide ToLe, Pow256, FileAt, HeaderAt;
    forall g | Readable(g, utf8) && FileAt(b, o, g, sha)
      ensures && h == Some(FileHeader(|g.path|, g.mode, |g.bytes|, sha(g.bytes)))
              && o + 46 + |g.path| + |g.bytes| <= |b|
              && b[o + 46..o + 46 + |g.path|] == g.path
              && b[o + 46 + |g.path|..o + 46 + |g.path| + |g.bytes|] == g.bytes
              && 0 < |g.path| <= MAX_PAYLOAD_PATH_BYTES
    {
      FieldsAreFile(b, o, g, sha);
      HeaderTells(b, o, h.value, g, sha);
    }
  }

  lemma HeaderFits(b: seq<u8>, o: nat, h: FileHeader, f: PayloadFile, sha: Sha)
    requires HeaderAt(b, o, h) && h == FileHeader(|f.path|, f.mode, |f.bytes|, sha(f.bytes))
    requires o + 46 + |f.path| + |f.bytes| <= |b|
    requires b[o + 46..o + 46 + |f.path|] == f.path
    requires b[o + 46 + |f.path|..o + 46 + |f.path| + |f.bytes|] == f.bytes
    ensures FieldsAt(b, o, f, sha)
  {
    hide ToLe, Pow256;
  }

  // ----- decoding the head -----

  /** A digest text as the decoder writes it: lower case. */
  predicate CanonicalDigest(t: Text) {
    |t| == 2 * DIGEST_LENGTH && IsHex(t) && LowerCase(t)
  }

  lemma CanonicalIsHex(t: Text, d: seq<u8>)
    requires |d| == DIGEST_LENGTH
    ensures Hex(d) == t <==> CanonicalDigest(t) && Unhex(t) == d
  {
    if Hex(d) == t {
      UnhexHex(d);
      HexUnhex(t);
    }
    if CanonicalDigest(t) && Unhex(t) == d {
      HexUnhex(t);
    }
  }

  /** A record the decoder can find in a payload. */
  predicate ReadableRecord(r: PackageRecord, utf8: Text -> bool) {
    && CanonicalDigest(r.metadata) && CanonicalDigest(r.sourceLock)
    && |r.name| <= MAX_U16 && Printable(r.name) && utf8(r.name)
    && |r.version| <= MAX_U16 && Printable(r.version) && utf8(r.version)
  }

  function HeadSize(r: PackageRecord): nat {
    PAYLOAD_HEADER_BYTES + |r.name| + |r.version|
  }

  ghost predicate HeadFieldsAt(b: seq<u8>, r: PackageRecord, count: nat, metadata: seq<u8>, sourceLock: seq<u8>) {
    && HeadSize(r) <= |b|
    && b[..8] == PAYLOAD_MAGIC && b[8..10] == ToLe(2, BINARY_PAYLOAD_FORMAT)
    && b[10..12] == ToLe(2, |r.name|) && b[12..14] == ToLe(2, |r.version|)
    && b[14..18] == ToLe(4, r.release) && b[18..22] == ToLe(4, count)
    && b[22..54] == metadata && b[54..86] == sourceLock
    && b[86..86 + |r.name|] == r.name && b[86 + |r.name|..HeadSize(r)] == r.version
  }

  lemma HeadIsFields(b: seq<u8>, r: PackageRecord, count: nat, metadata: seq<u8>, sourceLock: seq<u8>)
    requires |metadata| == DIGEST_LENGTH && |sourceLock| == DIGEST_LENGTH && HeadSize(r) <= |b|
    ensures b[..HeadSize(r)] == Head(r, count, metadata, sourceLock) <==> HeadFieldsAt(b, r, count, metadata, sourceLock)
  {
    hide ToLe;
    var s, n := b[..HeadSize(r)], 86 + |r.name|;
    assert s[..8] == b[..8] && s[8..10] == b[8..10] && s[10..12] == b[10..12] && s[12..14] == b[12..14];
    assert s[14..18] == b[14..18] && s[18..22] == b[18..22] && s[22..54] == b[22..54] && s[54..86] == b[54..86];
    assert s[86..n] == b[86..n] && s[n..] == b[n..HeadSize(r)];
    HeadParts(s, PAYLOAD_MAGIC, ToLe(2, BINARY_PAYLOAD_FORMAT), ToLe(2, |r.name|), ToLe(2, |r.version|),
              ToLe(4, r.release), ToLe(4, count), metadata, sourceLock, r.name, r.version);
  }

  lemma HeadParts(s: seq<u8>, a: seq<u8>, b: seq<u8>, c: seq<u8>, d: seq<u8>, e: seq<u8>, f: seq<u8>, g: seq<u8>, h: seq<u8>,
                  i: seq<u8>, j: seq<u8>)
    requires |a| == 8 && |b| == 2 && |c| == 2 && |d| == 2 && |e| == 4 && |f| == 4 && |g| == 32 && |h| == 32
    requires |s| == 86 + |i| + |j|
    ensures s == a + b + c + d + e + f + g + h + i + j <==>
            && s[..8] == a && s[8..10] == b && s[10..12] == c && s[12..14] == d && s[14..18] == e && s[18..22] == f
            && s[22..54] == g && s[54..86] == h && s[86..86 + |i|] == i && s[86 + |i|..] == j
  {
    Split(s, a + b + c + d + e + f + g + h + i, j);
    Split(s[..86 + |i|], a + b + c + d + e + f + g + h, i);
    assert s[..86 + |i|][..86] == s[..86] && s[..86 + |i|][86..] == s[86..86 + |i|];
    Split(s[..86], a + b + c + d + e + f + g, h);
    assert s[..86][..54] == s[..54] && s[..86][54..] == s[54..86];
    Split(s[..54], a + b + c + d + e + f, g);
    assert s[..54][..22] == s[..22] && s[..54][22..] == s[22..54];
    FixedParts(s[..22], a, b, c, d, e, f);
    assert s[..22][..8] == s[..8] && s[..22][8..10] == s[8..10] && s[..22][10..12] == s[10..12];
    assert s[..22][12..14] == s[12..14] && s[..22][14..18] == s[14..18] && s[..22][18..] == s[18..22];
  }

  lemma FixedParts(s: seq<u8>, a: seq<u8>, b: seq<u8>, c: seq<u8>, d: seq<u8>, e: seq<u8>, f: seq<u8>)
    requires |a| == 8 && |b| == 2 && |c| == 2 && |d| == 2 && |e| == 4 && |f| == 4 && |s| == 22
    ensures s == a + b + c + d + e + f <==>
            && s[..8] == a && s[8..10] == b && s[10..12] == c && s[12..14] == d && s[14..18] == e && s[18..] == f
  {
    Split(s, a + b + c + d + e, f);
    Split(s[..18], a + b + c + d, e);
    assert s[..18][..14] == s[..14] && s[..18][14..] == s[14..18];
    Split(s[..14], a + b + c, d);
    assert s[..14][..12] == s[..12] && s[..14][12..] == s[12..14];
    Split(s[..12], a + b, c);
    assert s[..12][..10] == s[..10] && s[..12][10..] == s[10..12];
    Split(s[..10], a, b);
    assert s[..10][..8] == s[..8] && s[..10][8..] == s[8..10];
  }

  /** The fixed part of the head as read. */
  datatype FixedHead = FixedHead(format: nat, nameLength: nat, versionLength: nat, release: nat, count: nat,
                                 metadata: seq<u8>, sourceLock: seq<u8>)

  ghost predicate FixedAt(b: seq<u8>, h: FixedHead) {
    && PAYLOAD_HEADER_BYTES <= |b| && b[..8] == PAYLOAD_MAGIC
    && h.format < Pow256(2) && h.nameLength < Pow256(2) && h.versionLength < Pow256(2)
    && h.release < Pow256(4) && h.count < Pow256(4)
    && b[8..10] == ToLe(2, h.format) && b[10..12] == ToLe(2, h.nameLength) && b[12..14] == ToLe(2, h.versionLength)
    && b[14..18] == ToLe(4, h.release) && b[18..22] == ToLe(4, h.count)
    && b[22..54] == h.metadata && b[54..86] == h.sourceLock
  }

  method DecodeFixed(cursor: PayloadCursor) returns (h: Option<FixedHead>)
    requires cursor.offset == 0
    modifies cursor
    ensures cursor.offset <= |cursor.bytes|
    ensures h.Some? ==> FixedAt(cursor.bytes, h.value) && cursor.offset == PAYLOAD_HEADER_BYTES
    ensures h.None? ==> |cursor.bytes| < PAYLOAD_HEADER_BYTES || cursor.bytes[..8] != PAYLOAD_MAGIC
  {
    hide ToLe, Pow256;
    if |cursor.bytes| < PAYLOAD_HEADER_BYTES {
      return None;
    }
    var magic := cursor.Take(8);
    if magic.value != PAYLOAD_MAGIC {
      return None;
    }
    var format := cursor.Number(2);
    var nameLength := cursor.Number(2);
    var versionLength := cursor.Number(2);
    var release := cursor.Number(4);
    var count := cursor.Number(4);
    var metadata := cursor.Take(DIGEST_LENGTH);
    var sourceLock := cursor.Take(DIGEST_LENGTH);
    return Some(FixedHead(format.value, nameLength.value, versionLength.value, release.value, count.value,
                          metadata.value, sourceLock.value));
  }

  /** The head of any payload for the record is what is read. */
  lemma FixedTells(b: seq<u8>, h: FixedHead, r: PackageRecord, count: nat, metadata: seq<u8>, sourceLock: seq<u8>)
    requires FixedAt(b, h) && HeadFieldsAt(b, r, count, metadata, sourceLock)
    requires r.Typed() && |r.name| <= MAX_U16 && |r.version| <= MAX_U16 && count <= MAX_PAYLOAD_FILES
    ensures h == FixedHead(BINARY_PAYLOAD_FORMAT, |r.name|, |r.version|, r.release, count, metadata, sourceLock)
  {
    Widths();
    hide ToLe, Pow256;
    SameNumber(2, h.format, BINARY_PAYLOAD_FORMAT);
    SameNumber(2, h.nameLength, |r.name|);
    SameNumber(2, h.versionLength, |r.version|);
    SameNumber(4, h.release, r.release);
    SameNumber(4, h.count, count);
  }

  /** The head of any payload for the record. */
  ghost function HeadOf(r: PackageRecord, count: nat): seq<u8> {
    if CanonicalDigest(r.metadata) && CanonicalDigest(r.sourceLock) then
      Head(r, count, Unhex(r.metadata), Unhex(r.sourceLock))
    else []
  }

  lemma HeadOfIs(r: PackageRecord, count: nat)
    requires CanonicalDigest(r.metadata) && CanonicalDigest(r.sourceLock)
    ensures HeadOf(r, count) == Head(r, count, Unhex(r.metadata), Unhex(r.sourceLock)) && |HeadOf(r, count)| == HeadSize(r)
  {
    HeadLength(r, count, Unhex(r.metadata), Unhex(r.sourceLock));
  }

  /** The bytes open with the head of the record for `count` files. */
  ghost predicate HeadAt(b: seq<u8>, r: PackageRecord, count: nat, utf8: Text -> bool) {
    && ReadableRecord(r, utf8) && 0 < count <= MAX_PAYLOAD_FILES && HeadSize(r) <= |b|
    && b[..HeadSize(r)] == HeadOf(r, count)
  }

  /** The file count, if the head is that of the record. */
  method DecodeHead(cursor: PayloadCursor, r: PackageRecord, utf8: Text -> bool) returns (count: Option<nat>)
    requires cursor.offset == 0 && r.Typed()
    modifies cursor
    ensures cursor.offset <= |cursor.bytes|
    ensures count.Some? ==> HeadAt(cursor.bytes, r, count.value, utf8) && cursor.offset == HeadSize(r)
    ensures forall n: nat :: HeadAt(cursor.bytes, r, n, utf8) ==> count == Some(n)
  {
    hide ToLe, Pow256, Head, Printable, LowerCase, IsHex, Hex, Unhex, FixedAt;
    ghost var b := cursor.bytes;
    var h := DecodeFixed(cursor);
    HeadTells(b, h, r, utf8);
    if h.None? {
      return None;
    }
    if h.value.format != BINARY_PAYLOAD_FORMAT || h.value.count == 0 || h.value.count > MAX_PAYLOAD_FILES {
      return None;
    }
    var name := cursor.TakeText(h.value.nameLength, utf8);
    if name.None? {
      return None;
    }
    var version := cursor.TakeText(h.value.versionLength, utf8);
    if version.None? {
      return None;
    }
    if name.value != r.name || version.value != r.version || h.value.release != r.release {
      return None;
    }
    FixedDigests(b, h.value);
    CanonicalIsHex(r.metadata, h.value.metadata);
    CanonicalIsHex(r.sourceLock, h.value.sourceLock);
    if Hex(h.value.metadata) != r.metadata || Hex(h.value.sourceLock) != r.sourceLock {
      return None;
    }
    FixedIsHead(b, h.value, r);
    HeadOfIs(r, h.value.count);
    return Some(h.value.count);
  }

  lemma FixedDigests(b: seq<u8>, h: FixedHead)
    requires FixedAt(b, h)
    ensures |h.metadata| == DIGEST_LENGTH && |h.sourceLock| == DIGEST_LENGTH
    ensures h.nameLength <= MAX_U16 && h.versionLength <= MAX_U16
  {
    Widths();
    hide ToLe, Pow256;
  }

  lemma FixedIsHead(b: seq<u8>, h: FixedHead, r: PackageRecord)
    requires FixedAt(b, h) && HeadSize(r) <= |b| && |h.metadata| == DIGEST_LENGTH && |h.sourceLock| == DIGEST_LENGTH
    requires h.format == BINARY_PAYLOAD_FORMAT && h.nameLength == |r.name| && h.versionLength == |r.version|
    requires h.release == r.release
    requires b[86..86 + |r.name|] == r.name && b[86 + |r.name|..HeadSize(r)] == r.version
    ensures b[..HeadSize(r)] == Head(r, h.count, h.metadata, h.sourceLock)
  {
    hide ToLe, Pow256, Head;
    HeadIsFields(b, r, h.count, h.metadata, h.sourceLock);
  }

  lemma HeadTells(b: seq<u8>, h: Option<FixedHead>, r: PackageRecord, utf8: Text -> bool)
    requires r.Typed() && (h.Some? ==> FixedAt(b, h.value))
    requires h.None? ==> |b| < PAYLOAD_HEADER_BYTES || b[..8] != PAYLOAD_MAGIC
    ensures forall n: nat :: HeadAt(b, r, n, utf8) ==>
              && h == Some(FixedHead(BINARY_PAYLOAD_FORMAT, |r.name|, |r.version|, r.release, n,
                                     Unhex(r.metadata), Unhex(r.sourceLock)))
              && b[86..86 + |r.name|] == r.name && b[86 + |r.name|..HeadSize(r)] == r.version
  {
    hide ToLe, Pow256, Head, Unhex, FixedAt;
    forall n: nat | HeadAt(b, r, n, utf8)
      ensures && h == Some(FixedHead(BINARY_PAYLOAD_FORMAT, |r.name|, |r.version|, r.release, n,
                                     Unhex(r.metadata), Unhex(r.sourceLock)))
              && b[86..86 + |r.name|] == r.name && b[86 + |r.name|..HeadSize(r)] == r.version
    {
      HeadOfIs(r, n);
      HeadIsFields(b, r, n, Unhex(r.metadata), Unhex(r.sourceLock));
      FixedTells(b, h.value, r, n, Unhex(r.metadata), Unhex(r.sourceLock));
    }
  }

  // ----- decoding the payload -----

  ghost predicate ReadableFiles(fs: seq<PayloadFile>, utf8: Text -> bool) {
    && 0 < |fs| <= MAX_PAYLOAD_FILES
    && (forall i :: 0 <= i < |fs| ==> Readable(fs[i], utf8))
    && forall i, j :: 0 <= i < j < |fs| ==> fs[i].path != fs[j].path
  }

  /** The bytes are the container of `fs` under the record, and the decoder may take them. */
  ghost predicate Carries(b: seq<u8>, r: PackageRecord, fs: seq<PayloadFile>, sha: Sha, utf8: Text -> bool) {
    && ReadableRecord(r, utf8) && ReadableFiles(fs, utf8) && |b| <= MAX_OUTPUT_BYTES
    && b == HeadOf(r, |fs|) + FilesBytes(fs, sha)
  }

  lemma CarriesHead(b: seq<u8>, r: PackageRecord, fs: seq<PayloadFile>, sha: Sha, utf8: Text -> bool)
    requires Carries(b, r, fs, sha, utf8)
    ensures HeadAt(b, r, |fs|, utf8)
  {
    HeadOfIs(r, |fs|);
  }

  /** File `k` of a payload stands where the first `k` end. */
  lemma {:induction false} FileStands(head: seq<u8>, fs: seq<PayloadFile>, k: nat, sha: Sha)
    requires k < |fs|
    ensures FileAt(head + FilesBytes(fs, sha), |head| + |FilesBytes(fs[..k], sha)|, fs[k], sha)
    decreases |fs|
  {
    hide FileBytes;
    var front, last := fs[..|fs| - 1], FileBytes(fs[|fs| - 1], sha);
    if k >= |fs| - 1 {
    } else {
      FileStands(head, front, k, sha);
      assert front[..k] == fs[..k];
      StandsStill(head + FilesBytes(front, sha), |head| + |FilesBytes(fs[..k], sha)|, fs[k], sha, last);
      assert head + FilesBytes(front, sha) + last == head + FilesBytes(fs, sha);
    }
  }

  lemma StandsStill(b: seq<u8>, o: nat, f: PayloadFile, sha: Sha, more: seq<u8>)
    requires FileAt(b, o, f, sha)
    ensures FileAt(b + more, o, f, sha)
  {
    hide FileBytes;
    var n := |FileBytes(f, sha)|;
    assert (b + more)[o..o + n] == b[o..o + n];
  }

  /** Whatever files the bytes carry, the first `k` of them have been read, all told from a count. */
  ghost predicate ReadSoFar(b: seq<u8>, r: PackageRecord, count: nat, files: seq<PayloadFile>, sha: Sha, utf8: Text -> bool) {
    forall fs :: Carries(b, r, fs, sha, utf8) ==> |fs| == count && |files| <= count && files == fs[..|files|]
  }

  lemma NextStands(b: seq<u8>, r: PackageRecord, count: nat, files: seq<PayloadFile>, o: nat, sha: Sha, utf8: Text -> bool)
    requires ReadSoFar(b, r, count, files, sha, utf8) && |files| < count
    requires o == |HeadOf(r, count)| + |FilesBytes(files, sha)|
    ensures forall fs :: Carries(b, r, fs, sha, utf8) ==>
              |files| < |fs| && Readable(fs[|files|], utf8) && FileAt(b, o, fs[|files|], sha)
  {
    hide Carries, FilesBytes, HeadOf, Readable, FileAt;
    forall fs | Carries(b, r, fs, sha, utf8) ensures Readable(fs[|files|], utf8) && FileAt(b, o, fs[|files|], sha) {
      OneStands(b, r, fs, |files|, sha, utf8);
    }
  }

  lemma OneStands(b: seq<u8>, r: PackageRecord, fs: seq<PayloadFile>, k: nat, sha: Sha, utf8: Text -> bool)
    requires Carries(b, r, fs, sha, utf8) && k < |fs|
    ensures Readable(fs[k], utf8) && FileAt(b, |HeadOf(r, |fs|)| + |FilesBytes(fs[..k], sha)|, fs[k], sha)
  {
    hide FilesBytes, HeadOf, Readable, ReadableRecord, FileAt;
    FileStands(HeadOf(r, |fs|), fs, k, sha);
  }

  /** Accepts exactly the containers for the record that hold readable files, and returns the files. */
  method Decode(b: seq<u8>, r: PackageRecord, sha: Sha, utf8: Text -> bool) returns (files: Option<seq<PayloadFile>>)
    requires ShaFits(sha) && r.Typed()
    ensures files.Some? ==> Carries(b, r, files.value, sha, utf8)
    ensures forall fs :: Carries(b, r, fs, sha, utf8) ==> files == Some(fs)
    ensures files.Some? ==> forall i :: 0 <= i < |files.value| ==> StaysInside(files.value[i].path)
  {
    hide FileBytes, FilesBytes, HeadOf, Readable, ReadableRecord, FileAt, ReadSoFar, Carries, StaysInside;
    if |b| < PAYLOAD_HEADER_BYTES || |b| > MAX_OUTPUT_BYTES {
      CarriersAreLong(b, r, sha, utf8);
      return None;
    }
    var cursor := new PayloadCursor(b);
    var count := DecodeHead(cursor, r, utf8);
    CarriersStart(b, r, count, sha, utf8);
    if count.None? {
      return None;
    }
    var read := DecodeFiles(cursor, r, count.value, sha, utf8);
    if read.None? {
      return None;
    }
    if cursor.offset != |b| {
      CarriersEnd(b, r, count.value, read.value, sha, utf8);
      return None;
    }
    FilesCarried(b, r, read.value, sha, utf8);
    CarriedStayInside(b, r, read.value, sha, utf8);
    return Some(read.value);
  }

  lemma CarriedStayInside(b: seq<u8>, r: PackageRecord, fs: seq<PayloadFile>, sha: Sha, utf8: Text -> bool)
    requires Carries(b, r, fs, sha, utf8)
    ensures forall i :: 0 <= i < |fs| ==> StaysInside(fs[i].path)
  {
    hide SafePath, StaysInside, FileBytes, FilesBytes, HeadOf;
    forall i | 0 <= i < |fs| ensures StaysInside(fs[i].path) {
      SafePathStaysInside(fs[i].path);
    }
  }

  lemma CarriersAreLong(b: seq<u8>, r: PackageRecord, sha: Sha, utf8: Text -> bool)
    requires |b| < PAYLOAD_HEADER_BYTES || |b| > MAX_OUTPUT_BYTES
    ensures forall fs :: !Carries(b, r, fs, sha, utf8)
  {
    forall fs ensures !Carries(b, r, fs, sha, utf8) {
      if Carries(b, r, fs, sha, utf8) {
        CarriesHead(b, r, fs, sha, utf8);
        assert false;
      }
    }
  }

  lemma CarriersStart(b: seq<u8>, r: PackageRecord, count: Option<nat>, sha: Sha, utf8: Text -> bool)
    requires forall n: nat :: HeadAt(b, r, n, utf8) ==> count == Some(n)
    ensures count.None? ==> forall fs :: !Carries(b, r, fs, sha, utf8)
    ensures count.Some? ==> ReadSoFar(b, r, count.value, [], sha, utf8)
  {
    forall fs | Carries(b, r, fs, sha, utf8) ensures count == Some(|fs|) {
      CarriesHead(b, r, fs, sha, utf8);
    }
  }

  lemma FilesCarried(b: seq<u8>, r: PackageRecord, fs: seq<PayloadFile>, sha: Sha, utf8: Text -> bool)
    requires |b| <= MAX_OUTPUT_BYTES && HeadAt(b, r, |fs|, utf8) && ReadableFiles(fs, utf8)
    requires b[..|b|] == HeadOf(r, |fs|) + FilesBytes(fs, sha) && ReadSoFar(b, r, |fs|, fs, sha, utf8)
    ensures Carries(b, r, fs, sha, utf8) && forall gs :: Carries(b, r, gs, sha, utf8) ==> gs == fs
  {
    hide FilesBytes, HeadOf, ReadableFiles, ReadableRecord;
    assert b[..|b|] == b;
    forall gs | Carries(b, r, gs, sha, utf8) ensures gs == fs {
      assert gs[..|fs|] == gs;
    }
  }

  lemma CarriersEnd(b: seq<u8>, r: PackageRecord, count: nat, files: seq<PayloadFile>, sha: Sha, utf8: Text -> bool)
    requires ReadSoFar(b, r, count, files, sha, utf8) && |files| == count
    requires |HeadOf(r, count)| + |FilesBytes(files, sha)| != |b|
    ensures forall fs :: !Carries(b, r, fs, sha, utf8)
  {
    hide FilesBytes, HeadOf, ReadableRecord, ReadableFiles;
    forall fs ensures !Carries(b, r, fs, sha, utf8) {
      if |fs| == count && files == fs[..|files|] {
        assert fs[..|files|] == fs;
      }
    }
  }

  method DecodeFiles(cursor: PayloadCursor, r: PackageRecord, count: nat, sha: Sha, utf8: Text -> bool)
    returns (files: Option<seq<PayloadFile>>)
    requires ShaFits(sha) && HeadAt(cursor.bytes, r, count, utf8) && cursor.offset == HeadSize(r)
    requires ReadSoFar(cursor.bytes, r, count, [], sha, utf8)
    modifies cursor
    ensures cursor.offset <= |cursor.bytes|
    ensures files.Some? ==> |files.value| == count && ReadableFiles(files.value, utf8)
    ensures files.Some? ==> cursor.bytes[..cursor.offset]
                            == HeadOf(r, count) + FilesBytes(files.value, sha)
    ensures files.Some? ==> ReadSoFar(cursor.bytes, r, count, files.value, sha, utf8)
    ensures files.None? ==> forall fs :: !Carries(cursor.bytes, r, fs, sha, utf8)
  {
    hide FileBytes, FilesBytes, Head, Readable, Carries, LowerCase, Printable, IsHex, Unhex, Gathered, FileAt, ReadSoFar;
    NothingGathered(utf8);
    ghost var head := HeadOf(r, count);
    HeadOfIs(r, count);
    hide HeadOf, ReadableRecord;
    var done, seen := [], {};
    NoFiles(sha);
    while |done| < count
      invariant |done| <= count && cursor.offset <= |cursor.bytes|
      invariant Gathered(done, seen, utf8)
      invariant cursor.bytes[..cursor.offset] == head + FilesBytes(done, sha)
      invariant ReadSoFar(cursor.bytes, r, count, done, sha, utf8)
      decreases count - |done|
    {
      ghost var o := cursor.offset;
      assert o == |cursor.bytes[..o]| == |head| + |FilesBytes(done, sha)|;
      NextStands(cursor.bytes, r, count, done, o, sha, utf8);
      var file := DecodeFile(cursor, sha, utf8);
      if file.None? {
        return None;
      }
      CarriersGoOn(cursor.bytes, r, count, done, file.value, sha, utf8);
      GatherOne(done, seen, file.value, utf8);
      if file.value.path in seen {
        RepeatCarriesNothing(cursor.bytes, r, count, done, file.value, sha, utf8);
        return None;
      }
      FilesAppend(cursor.bytes, o, head, done, file.value, sha);
      seen := seen + {file.value.path};
      done := done + [file.value];
    }
    AllGathered(done, seen, utf8);
    return Some(done);
  }

  /** Readable files with different paths, which are those in `seen`. */
  ghost predicate Gathered(done: seq<PayloadFile>, seen: set<Text>, utf8: Text -> bool) {
    && (forall i :: 0 <= i < |done| ==> Readable(done[i], utf8))
    && (forall i, j :: 0 <= i < j < |done| ==> done[i].path != done[j].path)
    && seen == set i | 0 <= i < |done| :: done[i].path
  }

  lemma NothingGathered(utf8: Text -> bool)
    ensures Gathered([], {}, utf8)
  {
  }

  lemma AllGathered(done: seq<PayloadFile>, seen: set<Text>, utf8: Text -> bool)
    requires Gathered(done, seen, utf8) && 0 < |done| <= MAX_PAYLOAD_FILES
    ensures ReadableFiles(done, utf8)
  {
  }

  lemma GatherOne(done: seq<PayloadFile>, seen: set<Text>, f: PayloadFile, utf8: Text -> bool)
    requires Gathered(done, seen, utf8) && Readable(f, utf8)
    ensures f.path in seen ==> exists i :: 0 <= i < |done| && done[i].path == f.path
    ensures f.path !in seen ==> Gathered(done + [f], seen + {f.path}, utf8)
  {
    hide Readable;
    if f.path !in seen {
      var more := done + [f];
      assert (set i | 0 <= i < |more| :: more[i].path) == seen + {f.path} by {
        assert more[|done|] == f && forall i :: 0 <= i < |done| ==> more[i] == done[i];
      }
    }
  }

  lemma NoFiles(sha: Sha)
    ensures FilesBytes([], sha) == []
  {
  }

  lemma FilesAppend(b: seq<u8>, o: nat, head: seq<u8>, done: seq<PayloadFile>, f: PayloadFile, sha: Sha)
    requires o <= |b| && b[..o] == head + FilesBytes(done, sha) && FileAt(b, o, f, sha)
    ensures b[..o + |FileBytes(f, sha)|] == head + FilesBytes(done + [f], sha)
  {
    hide FileBytes;
    assert (done + [f])[..|done|] == done;
    assert b[..o + |FileBytes(f, sha)|] == b[..o] + FileBytes(f, sha);
  }

  lemma CarriersGoOn(b: seq<u8>, r: PackageRecord, count: nat, done: seq<PayloadFile>, f: PayloadFile, sha: Sha,
                     utf8: Text -> bool)
    requires ReadSoFar(b, r, count, done, sha, utf8) && |done| < count
    requires forall fs :: Carries(b, r, fs, sha, utf8) ==> |done| < |fs| && fs[|done|] == f
    ensures ReadSoFar(b, r, count, done + [f], sha, utf8)
  {
    hide Carries;
  }

  lemma RepeatCarriesNothing(b: seq<u8>, r: PackageRecord, count: nat, done: seq<PayloadFile>, f: PayloadFile, sha: Sha,
                             utf8: Text -> bool)
    requires ReadSoFar(b, r, count, done + [f], sha, utf8)
    requires exists i :: 0 <= i < |done| && done[i].path == f.path
    ensures forall fs :: !Carries(b, r, fs, sha, utf8)
  {
    hide HeadOf, FilesBytes, ReadableRecord, ReadableFiles;
    forall fs ensures !Carries(b, r, fs, sha, utf8) {
      if |done| < |fs| && done + [f] == fs[..|done| + 1] {
        RepeatsPath(fs, done, f, utf8);
      }
    }
  }

  lemma RepeatsPath(fs: seq<PayloadFile>, done: seq<PayloadFile>, f: PayloadFile, utf8: Text -> bool)
    requires |done| < |fs| && done + [f] == fs[..|done| + 1]
    requires exists i :: 0 <= i < |done| && done[i].path == f.path
    ensures !ReadableFiles(fs, utf8)
  {
    var i :| 0 <= i < |done| && done[i].path == f.path;
    assert fs[i] == (done + [f])[i] && fs[|done|] == (done + [f])[|done|];
  }

  // ----- round trips -----

  /** Names, versions and paths are text. */
  ghost predicate AllText(r: PackageRecord, fs: seq<PayloadFile>, utf8: Text -> bool) {
    utf8(r.name) && utf8(r.version) && forall i :: 0 <= i < |fs| ==> utf8(fs[i].path)
  }

  /** The decoder takes what the encoder made exactly when digests are lower case and paths printable. */
  lemma EncodedIsCarried(r: PackageRecord, fs: seq<PayloadFile>, sha: Sha, utf8: Text -> bool)
    requires ShaFits(sha) && Encodable(r, fs, sha) && AllText(r, fs, utf8)
    ensures Carries(Container(r, fs, sha), r, fs, sha, utf8) <==> Plain(r, fs)
  {
    hide SafePath, IsHex, Unhex, Head, FilesBytes;
  }

  /** What the decoder takes is what the encoder would make, if the record is one the encoder takes. */
  lemma CarriedIsEncoded(b: seq<u8>, r: PackageRecord, fs: seq<PayloadFile>, sha: Sha, utf8: Text -> bool)
    requires Carries(b, r, fs, sha, utf8)
    ensures Encodable(r, fs, sha) <==> GoodRecord(r)
    ensures Encodable(r, fs, sha) ==> Container(r, fs, sha) == b
  {
    hide SafePath, IsHex, Unhex, Head, FilesBytes;
  }

  /** Decoding an encoded payload gives back its files exactly when the payload is plain. */
  method EncodeThenDecode(r: PackageRecord, fs: seq<PayloadFile>, sha: Sha, utf8: Text -> bool)
    returns (files: Option<seq<PayloadFile>>)
    requires ShaFits(sha) && r.Typed() && AllText(r, fs, utf8)
    ensures files == Some(fs) <==> Encodable(r, fs, sha) && Plain(r, fs)
  {
    hide Encodable, Carries, Plain;
    var b := Encode(r, fs, sha);
    if b.None? {
      return None;
    }
    EncodedIsCarried(r, fs, sha, utf8);
    files := Decode(b.value, r, sha, utf8);
  }

  /** Encoding what was decoded gives back the bytes exactly when the record has valid fields. */
  method DecodeThenEncode(b: seq<u8>, r: PackageRecord, sha: Sha, utf8: Text -> bool)
    returns (files: Option<seq<PayloadFile>>, again: Option<seq<u8>>)
    requires ShaFits(sha) && r.Typed()
    ensures files.Some? ==> (again == Some(b) <==> GoodRecord(r)) && (again.Some? ==> again == Some(b))
  {
    hide Encodable, Carries, GoodRecord;
    again := None;
    files := Decode(b, r, sha, utf8);
    if files.Some? {
      CarriedIsEncoded(b, r, files.value, sha, utf8);
      again := Encode(r, files.value, sha);
    }
  }

  /** Under any valid record the encoder takes a file whose path is a line feed, and the decoder does not. */
  lemma EncoderTakesControlPath(r: PackageRecord, mode: nat, bytes: seq<u8>, sha: Sha)
    requires GoodRecord(r) && mode <= MAX_MODE && |bytes| <= MAX_OUTPUT_BYTES - 0x1_1000 && ShaFits(sha)
    ensures var fs := [PayloadFile([10], mode, bytes)]; Encodable(r, fs, sha) && !Plain(r, fs)
  {
    hide Unhex, IsHex, Components;
    var fs := [PayloadFile([10], mode, bytes)];
    LineFeedIsSafe();
    assert fs[..0] == [];
    OneFileBytes(fs, sha);
    HeadLength(r, 1, Unhex(r.metadata), Unhex(r.sourceLock));
    assert !Printable(fs[0].path);
  }

  lemma LineFeedIsSafe()
    ensures SafePath([10]) && !Printable([10])
  {
    var p: Text := [10];
    assert p[1..] == [];
    assert Components(p) == [[10] + []] + [];
    assert Components(p)[0][0] == 10;
    assert forall c :: c in Components(p) ==> c[0] == 10;
  }

  lemma OneFileBytes(fs: seq<PayloadFile>, sha: Sha)
    requires |fs| == 1 && |fs[0].path| == 1 && ShaFits(sha)
    ensures |FilesBytes(fs, sha)| == 47 + |fs[0].bytes|
  {
    assert fs[..0] == [];
    assert FilesBytes(fs[..0], sha) == [];
  }

  /** The encoder takes a record with a digest digit in upper case, and the decoder does not. */
  lemma EncoderTakesUpperCase(r: PackageRecord, fs: seq<PayloadFile>, sha: Sha, i: nat)
    requires Encodable(r, fs, sha) && i < |r.metadata| && 97 <= r.metadata[i] <= 102
    ensures var raised := r.(metadata := r.metadata[i := r.metadata[i] - 32]);
            Encodable(raised, fs, sha) && !Plain(raised, fs)
  {
    hide GoodFiles, FilesBytes, Unhex, ValidVersion, IsHex, Printable;
    DigestInUpperCase(r.metadata, i);
  }

  lemma DigestInUpperCase(t: Text, i: nat)
    requires ValidDigest(t) && i < |t| && 97 <= t[i] <= 102
    ensures ValidDigest(t[i := t[i] - 32]) && !LowerCase(t[i := t[i] - 32])
  {
    var u := t[i := t[i] - 32];
    assert u[i] == t[i] - 32;
  }
}
