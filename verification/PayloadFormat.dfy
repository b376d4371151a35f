/** The layout of the native payload container of src/binary.rs and the rules its two ends impose. */
module PayloadFormat {
  import opened Bytes
  import opened Pointer
  import opened Results

  const MAX_OUTPUT_BYTES: nat := 0x2000_0000
  const MAX_PAYLOAD_FILES: nat := 4096
  const MAX_PAYLOAD_PATH_BYTES: nat := 4096
  const MAX_MODE: nat := 0xFFF
  const MAX_U16: nat := 0xFFFF
  const BINARY_PAYLOAD_FORMAT: nat := 1
  const PAYLOAD_MAGIC: seq<u8> := [65, 82, 67, 80, 75, 71, 48, 49]
  const DIGEST_LENGTH: nat := 32
  const PAYLOAD_HEADER_BYTES: nat := 86

  type Text = seq<u8>
  type Sha = seq<u8> -> seq<u8>

  datatype PayloadFile = PayloadFile(path: Text, mode: nat, bytes: seq<u8>)

  /** The fields of the index record a payload is bound to. */
  datatype PackageRecord = PackageRecord(name: Text, version: Text, release: nat, metadata: Text, sourceLock: Text) {
    /** A release is a 32-bit number. */
    ghost predicate Typed() {
      release < 0x1_0000_0000
    }
  }

  // ----- texts -----

  predicate IsControl(b: u8) {
    b < 32 || b == 127
  }

  lemma ControlsAreListed(b: u8)
    ensures IsControl(b) <==> b in CONTROL_CODES
  {
  }

  predicate Printable(t: Text) {
    forall i :: 0 <= i < |t| ==> !IsControl(t[i])
  }

  predicate ValidVersion(t: Text) {
    && 0 < |t| <= 256 && Printable(t)
    && forall i :: 0 <= i < |t| ==> t[i] != 32 && t[i] != 47 && t[i] != 92 && t[i] != 64
  }

  /** A version holds no control character, no blank, slash, backslash or at sign. */
  lemma VersionIsSpelled(t: Text)
    ensures ValidVersion(t) <==>
              1 <= |t| <= 256 && forall i :: 0 <= i < |t| ==> t[i] !in CONTROL_CODES + {32, 47, 92, 64}
  {
    forall i | 0 <= i < |t| ensures IsControl(t[i]) <==> t[i] in CONTROL_CODES {
      ControlsAreListed(t[i]);
    }
  }

  /** The parts of a path between slashes. */
  function Components(p: Text): seq<Text> {
    if p == [] then [[]]
    else
      var rest := Components(p[1..]);
      if p[0] == 47 then [[]] + rest else [[p[0]] + rest[0]] + rest[1..]
  }

  /** Relative, without parent steps or a leading current directory. */
  predicate SafePath(p: Text) {
    && 0 < |p| <= MAX_PAYLOAD_PATH_BYTES && 92 !in p && p[0] != 47
    && [46, 46] !in Components(p) && [46] != Components(p)[0]
  }

  /** The components with slashes between them. */
  ghost function Join(cs: seq<Text>): Text {
    if cs == [] then [] else if |cs| == 1 then cs[0] else cs[0] + [47] + Join(cs[1..])
  }

  ghost predicate SlashFree(cs: seq<Text>) {
    forall i :: 0 <= i < |cs| ==> 47 !in cs[i]
  }

  ghost predicate IsSplit(p: Text, cs: seq<Text>) {
    cs != [] && SlashFree(cs) && Join(cs) == p
  }

  /** The components split the path. */
  lemma {:induction false} ComponentsSplit(p: Text)
    ensures IsSplit(p, Components(p))
  {
    if p == [] {
      assert Join([[]]) == [];
    } else {
      ComponentsSplit(p[1..]);
      var rest := Components(p[1..]);
      assert p == [p[0]] + p[1..];
      if p[0] == 47 {
        assert ([[]] + rest)[1..] == rest;
      } else {
        JoinExtends(p[0], rest);
      }
    }
  }

  lemma JoinUnfolds(cs: seq<Text>)
    requires cs != []
    ensures Join(cs) == if |cs| == 1 then cs[0] else cs[0] + [47] + Join(cs[1..])
  {
  }

  lemma JoinExtends(b: u8, rest: seq<Text>)
    requires rest != [] && SlashFree(rest) && b != 47
    ensures var cs := [[b] + rest[0]] + rest[1..]; SlashFree(cs) && Join(cs) == [b] + Join(rest)
  {
    hide Join;
    var cs := [[b] + rest[0]] + rest[1..];
    assert cs[1..] == rest[1..];
    JoinUnfolds(cs);
    JoinUnfolds(rest);
    forall i | 0 <= i < |cs| ensures 47 !in cs[i] {
      if i > 0 {
        assert cs[i] == rest[i];
      }
    }
    if |rest| > 1 {
      assert [b] + (rest[0] + [47] + Join(rest[1..])) == [b] + rest[0] + [47] + Join(rest[1..]);
    }
  }

  /** There is only one way to split a path at its slashes. */
  lemma {:induction false} SplitIsComponents(cs: seq<Text>)
    requires cs != [] && SlashFree(cs)
    ensures Components(Join(cs)) == cs
    decreases |cs|, if cs == [] then 0 else |cs[0]|
  {
    var p := Join(cs);
    if cs[0] == [] {
      if |cs| > 1 {
        SplitIsComponents(cs[1..]);
        assert p[1..] == Join(cs[1..]);
        assert cs == [[]] + cs[1..];
      }
    } else {
      var less := [cs[0][1..]] + cs[1..];
      assert less[1..] == cs[1..] && cs[0] == [cs[0][0]] + cs[0][1..];
      forall i | 0 <= i < |less| ensures 47 !in less[i] {
        assert i > 0 ==> less[i] == cs[i];
      }
      SplitIsComponents(less);
      JoinExtends(cs[0][0], less);
      assert [[cs[0][0]] + less[0]] + less[1..] == cs;
      assert p[1..] == Join(less);
    }
  }

  /** How far below the root a walk along the components ends: a name goes down, a parent step up. */
  ghost function Level(cs: seq<Text>): int {
    if cs == [] then 0
    else
      var last := cs[|cs| - 1];
      Level(cs[..|cs| - 1]) + if last == [46, 46] then -1 else if last == [] || last == [46] then 0 else 1
  }

  /** Relative, and no beginning of the walk along it ends above the root. */
  ghost predicate StaysInside(p: Text) {
    && p != [] && p[0] != 47
    && forall cs, k :: IsSplit(p, cs) && 0 <= k <= |cs| ==> Level(cs[..k]) >= 0
  }

  lemma {:induction false} LevelWithoutParents(cs: seq<Text>)
    requires [46, 46] !in cs
    ensures Level(cs) >= 0
  {
    if cs == [] {
    } else {
      assert cs[|cs| - 1] in cs;
      LevelWithoutParents(cs[..|cs| - 1]);
    }
  }

  /** A safe path leads nowhere outside the target root. */
  lemma SafePathStaysInside(p: Text)
    requires SafePath(p)
    ensures StaysInside(p)
  {
    hide Components, Level, Join;
    forall cs, k | IsSplit(p, cs) && 0 <= k <= |cs| ensures Level(cs[..k]) >= 0 {
      SplitIsComponents(cs);
      LevelWithoutParents(cs[..k]);
    }
  }

  /** Which paths are safe, told from their components. */
  lemma SafePathExactly(p: Text, cs: seq<Text>)
    requires IsSplit(p, cs)
    ensures SafePath(p) <==>
              && 1 <= |p| <= MAX_PAYLOAD_PATH_BYTES && p[0] != 47 && (forall i :: 0 <= i < |p| ==> p[i] != 92)
              && cs[0] != [46] && forall i :: 0 <= i < |cs| ==> cs[i] != [46, 46]
  {
    hide Components, Join;
    SplitIsComponents(cs);
  }

  ghost predicate OrdinaryName(c: Text) {
    c != [] && c != [46] && c != [46, 46] && 47 !in c && 92 !in c
  }

  /** Ordinary names with slashes between them are safe up to the length limit. */
  lemma OrdinaryPathIsSafe(names: seq<Text>)
    requires names != [] && forall i :: 0 <= i < |names| ==> OrdinaryName(names[i])
    ensures SafePath(Join(names)) <==> |Join(names)| <= MAX_PAYLOAD_PATH_BYTES
  {
    hide Components;
    SplitIsComponents(names);
    JoinHolds(names);
  }

  lemma {:induction false} JoinHolds(names: seq<Text>)
    requires names != [] && forall i :: 0 <= i < |names| ==> OrdinaryName(names[i])
    ensures Join(names) != [] && Join(names)[0] != 47 && 92 !in Join(names)
  {
    if |names| == 1 {
    } else {
      JoinHolds(names[1..]);
    }
  }

  // ----- digests -----

  /** A digit of either case. */
  function Nibble(b: u8): Option<nat> {
    if 65 <= b <= 70 then Some(b - 55) else HexValue(b)
  }

  /** The digits in order, lower case first; an upper-case letter counts like its lower-case one. */
  const HEX_DIGITS: Text := [48, 49, 50, 51, 52, 53, 54, 55, 56, 57, 97, 98, 99, 100, 101, 102, 65, 66, 67, 68, 69, 70]

  lemma NibblesAreListed(b: u8, i: nat)
    ensures Nibble(b).Some? ==> b in HEX_DIGITS
    ensures i < |HEX_DIGITS| && HEX_DIGITS[i] == b ==> Nibble(b) == Some(if i < 16 then i else i - 6)
  {
    if Nibble(b).Some? {
      assert HEX_DIGITS[if b <= 57 then b - 48 else if b <= 70 then b - 49 else b - 87] == b;
    }
  }

  predicate IsHex(t: Text) {
    |t| % 2 == 0 && forall i :: 0 <= i < |t| ==> Nibble(t[i]).Some?
  }

  predicate ValidDigest(t: Text) {
    && |t| == 2 * DIGEST_LENGTH && IsHex(t)
    && exists i :: 0 <= i < |t| && t[i] != 48
  }

  /** Sixty-four hexadecimal digits, but not the text of nothing but zeros. */
  lemma DigestIsSpelled(t: Text)
    ensures ValidDigest(t) <==>
              |t| == 64 && (forall i :: 0 <= i < |t| ==> t[i] in HEX_DIGITS) && t != seq(64, _ => 48)
  {
    hide Nibble;
    forall i | 0 <= i < |t| ensures Nibble(t[i]).Some? <==> t[i] in HEX_DIGITS {
      NibblesAreListed(t[i], 0);
      if t[i] in HEX_DIGITS {
        var k :| 0 <= k < |HEX_DIGITS| && HEX_DIGITS[k] == t[i];
        NibblesAreListed(t[i], k);
      }
    }
    if |t| == 64 && forall i :: 0 <= i < |t| ==> t[i] == 48 {
      assert t == seq(64, _ => 48);
    }
  }

  predicate LowerCase(t: Text) {
    forall i :: 0 <= i < |t| ==> !(65 <= t[i] <= 70)
  }

  /** The bytes a digest text stands for. */
  function Unhex(t: Text): (d: seq<u8>)
    requires IsHex(t)
    ensures |d| == |t| / 2
  {
    if t == [] then []
    else
      Unhex(t[..|t| - 2]) + [16 * Nibble(t[|t| - 2]).value + Nibble(t[|t| - 1]).value]
  }

  lemma NibbleDigit(b: u8)
    requires Nibble(b).Some?
    ensures Nibble(b).value < 16 && (HexDigit(Nibble(b).value) == b <==> !(65 <= b <= 70))
  {
  }

  lemma AppendTwo(s: Text, t: Text, x: u8, y: u8, a: u8, b: u8)
    ensures s + [x, y] == t + [a, b] <==> s == t && x == a && y == b
  {
    if s + [x, y] == t + [a, b] {
      assert |s| == |t|;
      assert s == (s + [x, y])[..|s|] && t == (t + [a, b])[..|s|];
      assert (s + [x, y])[|s|] == x && (s + [x, y])[|s| + 1] == y;
    }
  }

  lemma LowerTwo(t: Text, a: u8, b: u8)
    ensures LowerCase(t + [a, b]) <==> LowerCase(t) && !(65 <= a <= 70) && !(65 <= b <= 70)
  {
    var u := t + [a, b];
    if LowerCase(u) {
      assert u[|t|] == a && u[|t| + 1] == b;
      assert forall i :: 0 <= i < |t| ==> t[i] == u[i];
    }
  }

  lemma UnhexTwo(t: Text)
    requires IsHex(t) && t != []
    ensures |t| >= 2 && Nibble(t[|t| - 2]).Some? && Nibble(t[|t| - 1]).Some? && IsHex(t[..|t| - 2])
    ensures Unhex(t) == Unhex(t[..|t| - 2]) + [16 * Nibble(t[|t| - 2]).value + Nibble(t[|t| - 1]).value]
  {
  }

  lemma HexNothing()
    ensures IsHex([]) && Hex(Unhex([])) == [] && LowerCase([])
  {
  }

  /** Writing the bytes out again gives back the text exactly when it is lower case. */
  lemma {:induction false} HexUnhex(t: Text)
    requires IsHex(t)
    ensures Hex(Unhex(t)) == t <==> LowerCase(t)
  {
    hide *;
    HexNothing();
    if t == [] {
    } else {
      UnhexTwo(t);
      var rest, a, b := t[..|t| - 2], t[|t| - 2], t[|t| - 1];
      HexUnhex(rest);
      NibbleDigit(a);
      NibbleDigit(b);
      var x, y := Nibble(a).value, Nibble(b).value;
      HexTwo(Unhex(rest), x, y);
      AppendTwo(Hex(Unhex(rest)), rest, HexDigit(x), HexDigit(y), a, b);
      LowerTwo(rest, a, b);
      assert t == rest + [a, b];
    }
  }

  lemma {:induction false} HexNibbles(d: seq<u8>)
    ensures forall i :: 0 <= i < |Hex(d)| ==> Nibble(Hex(d)[i]).Some? && !(65 <= Hex(d)[i] <= 70)
  {
    if d == [] {
    } else {
      HexNibbles(d[..|d| - 1]);
    }
  }

  lemma UnhexHex(d: seq<u8>)
    ensures IsHex(Hex(d)) && Unhex(Hex(d)) == d
  {
    HexNibbles(d);
    HexUnhex(Hex(d));
    HexInjective(Unhex(Hex(d)), d);
  }

  // ----- layout -----

  ghost predicate ShaFits(sha: Sha) {
    forall b :: |sha(b)| == DIGEST_LENGTH
  }

  ghost function FileBytes(f: PayloadFile, sha: Sha): seq<u8> {
    ToLe(2, |f.path|) + ToLe(4, f.mode) + ToLe(8, |f.bytes|) + sha(f.bytes) + f.path + f.bytes
  }

  ghost function FilesBytes(fs: seq<PayloadFile>, sha: Sha): seq<u8> {
    if fs == [] then [] else FilesBytes(fs[..|fs| - 1], sha) + FileBytes(fs[|fs| - 1], sha)
  }

  ghost function Head(r: PackageRecord, count: nat, metadata: seq<u8>, sourceLock: seq<u8>): seq<u8> {
    PAYLOAD_MAGIC + ToLe(2, BINARY_PAYLOAD_FORMAT) + ToLe(2, |r.name|) + ToLe(2, |r.version|) + ToLe(4, r.release)
    + ToLe(4, count) + metadata + sourceLock + r.name + r.version
  }

  /** The container of the files under the record. */
  ghost function Container(r: PackageRecord, fs: seq<PayloadFile>, sha: Sha): seq<u8>
    requires ValidDigest(r.metadata) && ValidDigest(r.sourceLock)
  {
    Head(r, |fs|, Unhex(r.metadata), Unhex(r.sourceLock)) + FilesBytes(fs, sha)
  }

  /** A container opens with "ARCPKG01" and the format number, and the sizes stand where they should. */
  lemma ContainerOpens(r: PackageRecord, fs: seq<PayloadFile>, sha: Sha)
    requires ValidDigest(r.metadata) && ValidDigest(r.sourceLock)
    requires |r.name| < 256 && |r.version| < 256 && r.release < 256 && |fs| < 256
    ensures Container(r, fs, sha)[..22]
            == [65, 82, 67, 80, 75, 71, 48, 49, 1, 0, |r.name|, 0, |r.version|, 0, r.release, 0, 0, 0, |fs|, 0, 0, 0]
  {
    hide FilesBytes, Unhex, Head;
    HeadOpens(r, |fs|, Unhex(r.metadata), Unhex(r.sourceLock));
    var head := Head(r, |fs|, Unhex(r.metadata), Unhex(r.sourceLock));
    assert Container(r, fs, sha)[..22] == head[..22];
  }

  lemma HeadOpens(r: PackageRecord, count: nat, metadata: seq<u8>, sourceLock: seq<u8>)
    requires |r.name| < 256 && |r.version| < 256 && r.release < 256 && count < 256
    ensures |Head(r, count, metadata, sourceLock)| >= 22
    ensures Head(r, count, metadata, sourceLock)[..22]
            == [65, 82, 67, 80, 75, 71, 48, 49, 1, 0, |r.name|, 0, |r.version|, 0, r.release, 0, 0, 0, count, 0, 0, 0]
  {
    hide ToLe;
    SmallLe(1);
    SmallLe(|r.name|);
    SmallLe(|r.version|);
    SmallLe(r.release);
    SmallLe(count);
    var sizes := PAYLOAD_MAGIC + [1, 0] + [|r.name|, 0] + [|r.version|, 0] + [r.release, 0, 0, 0] + [count, 0, 0, 0];
    assert Head(r, count, metadata, sourceLock) == sizes + (metadata + sourceLock + r.name + r.version);
  }

  // ----- what each end accepts -----

  ghost predicate GoodFile(f: PayloadFile) {
    SafePath(f.path) && f.mode <= MAX_MODE && |f.bytes| <= MAX_OUTPUT_BYTES
  }

  ghost predicate GoodFiles(fs: seq<PayloadFile>) {
    && 0 < |fs| <= MAX_PAYLOAD_FILES
    && (forall i :: 0 <= i < |fs| ==> GoodFile(fs[i]))
    && forall i, j :: 0 <= i < j < |fs| ==> fs[i].path != fs[j].path
  }

  /** The record has a name, a version and digests the encoder takes. */
  ghost predicate GoodRecord(r: PackageRecord) {
    && 0 < |r.name| <= MAX_U16 && Printable(r.name) && ValidVersion(r.version)
    && ValidDigest(r.metadata) && ValidDigest(r.sourceLock)
  }

  ghost predicate Encodable(r: PackageRecord, fs: seq<PayloadFile>, sha: Sha) {
    && GoodRecord(r) && GoodFiles(fs)
    && |Container(r, fs, sha)| <= MAX_OUTPUT_BYTES
  }

  /** What else the decoder insists on: lower-case digests and printable paths. */
  ghost predicate Plain(r: PackageRecord, fs: seq<PayloadFile>) {
    && LowerCase(r.metadata) && LowerCase(r.sourceLock)
    && forall i :: 0 <= i < |fs| ==> Printable(fs[i].path)
  }
}
