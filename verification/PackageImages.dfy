/** Canonical package images of src/pkg.rs: sequences sorted by name hash, and the maps they stand for. */
module PackageImages {
  const MAX_INSTALLED_PACKAGES: nat := 128

  type u16 = x: int | 0 <= x < 0x1_0000
  type u64 = x: int | 0 <= x < 0x1_0000_0000_0000_0000

  const MAX_U64: u64 := 0xFFFF_FFFF_FFFF_FFFF

  datatype ResolvedPackage = ResolvedPackage(nameHash: u64, versionIdx: u16)

  const NO_PACKAGE := ResolvedPackage(0, 0)

  /** No zero identity, and names strictly ascending. */
  ghost predicate Canonical(s: seq<ResolvedPackage>) {
    && (forall i :: 0 <= i < |s| ==> s[i].nameHash != 0 && s[i].versionIdx != 0)
    && forall i, j :: 0 <= i < j < |s| ==> s[i].nameHash < s[j].nameHash
  }

  /** It is enough to look at each package and at each two neighbours. */
  method IsCanonical(s: seq<ResolvedPackage>) returns (ok: bool)
    ensures ok <==> Canonical(s)
  {
    for i := 0 to |s|
      invariant forall k :: 0 <= k < i ==> s[k].nameHash != 0 && s[k].versionIdx != 0
    {
      if s[i].nameHash == 0 || s[i].versionIdx == 0 {
        return false;
      }
    }
    var i := 1;
    while i < |s|
      invariant 1 <= i && forall k, l :: 0 <= k < l < i && l < |s| ==> s[k].nameHash < s[l].nameHash
    {
      if !(s[i - 1].nameHash < s[i].nameHash) {
        return false;
      }
      i := i + 1;
    }
    return true;
  }

  /** The installed version of each name. */
  ghost function Image(s: seq<ResolvedPackage>): map<u64, u16>
    requires Canonical(s)
  {
    map p | p in s :: p.nameHash := p.versionIdx
  }

  lemma ImageIs(s: seq<ResolvedPackage>)
    requires Canonical(s)
    ensures forall p :: p in s <==> p.nameHash in Image(s) && Image(s)[p.nameHash] == p.versionIdx
    ensures forall n :: n in Image(s) ==> ResolvedPackage(n, Image(s)[n]) in s
  {
    forall p ensures p in s <==> p.nameHash in Image(s) && Image(s)[p.nameHash] == p.versionIdx {
      if p.nameHash in Image(s) && Image(s)[p.nameHash] == p.versionIdx {
        var q :| q in s && q.nameHash == p.nameHash;
        assert q == p;
      }
    }
    forall n | n in Image(s) ensures ResolvedPackage(n, Image(s)[n]) in s {
      var q :| q in s && q.nameHash == n;
      assert q == ResolvedPackage(n, Image(s)[n]);
    }
  }

  /** Two canonical sequences with the same packages have the same image. */
  lemma SameImage(s: seq<ResolvedPackage>, m: map<u64, u16>)
    requires Canonical(s)
    requires forall p :: p in s <==> p.nameHash in m && m[p.nameHash] == p.versionIdx
    ensures Image(s) == m
  {
    hide Image, Canonical;
    ImageIs(s);
    forall n | n in m ensures n in Image(s) && Image(s)[n] == m[n] {
      assert ResolvedPackage(n, m[n]) in s;
    }
    forall n | n in Image(s) ensures n in m {
      assert ResolvedPackage(n, Image(s)[n]) in s;
    }
  }

  /** A canonical sequence is determined by its packages. */
  lemma {:induction false} PackagesDetermine(s: seq<ResolvedPackage>, t: seq<ResolvedPackage>)
    requires Canonical(s) && Canonical(t) && forall p :: p in s <==> p in t
    ensures s == t
  {
    assert s == [] <==> t == [] by {
      if s != [] {
        assert s[0] in t;
      }
      if t != [] {
        assert t[0] in s;
      }
    }
    if s == [] {
    } else {
      var f, g := s[..|s| - 1], t[..|t| - 1];
      LastTells(s, t);
      LastTells(t, s);
      WithoutLast(s);
      WithoutLast(t);
      forall p ensures p in f <==> p in g {
        assert p in s <==> p in t;
      }
      PackagesDetermine(f, g);
      assert s == f + [s[|s| - 1]] && t == g + [t[|t| - 1]];
    }
  }

  lemma LastTells(s: seq<ResolvedPackage>, t: seq<ResolvedPackage>)
    requires Canonical(s) && Canonical(t) && s != [] && t != [] && forall p :: p in s <==> p in t
    ensures s[|s| - 1] == t[|t| - 1]
  {
    var a, b := s[|s| - 1], t[|t| - 1];
    assert a in t && b in s;
    var i :| 0 <= i < |t| && t[i] == a;
    var j :| 0 <= j < |s| && s[j] == b;
    assert b.nameHash <= a.nameHash;
    assert i < |t| - 1 ==> a.nameHash < b.nameHash;
  }

  lemma WithoutLast(s: seq<ResolvedPackage>)
    requires Canonical(s) && s != []
    ensures Canonical(s[..|s| - 1])
    ensures forall p :: p in s[..|s| - 1] <==> p in s && p != s[|s| - 1]
  {
    assert s == s[..|s| - 1] + [s[|s| - 1]];
  }

  lemma CanonicalUnique(s: seq<ResolvedPackage>, t: seq<ResolvedPackage>)
    requires Canonical(s) && Canonical(t) && Image(s) == Image(t)
    ensures s == t
  {
    hide Image, Canonical;
    ImageIs(s);
    ImageIs(t);
    PackagesDetermine(s, t);
  }

  lemma {:induction false} ImageSize(s: seq<ResolvedPackage>)
    requires Canonical(s)
    ensures |Image(s)| == |s|
  {
    if s == [] {
      NoImage();
    } else {
      var i := |s| - 1;
      PrefixImage(s, i);
      ImageSize(s[..i]);
      hide Image, Canonical;
      assert s[..i + 1] == s;
      OneMoreKey(Image(s[..i]), s[i].nameHash, s[i].versionIdx);
    }
  }

  lemma NoImage()
    ensures Image([]) == map[]
  {
  }

  lemma OneMoreKey(m: map<u64, u16>, n: u64, v: u16)
    requires n !in m
    ensures |m[n := v]| == |m| + 1
  {
    assert m[n := v].Keys == m.Keys + {n};
    assert |m[n := v].Keys| == |m[n := v]| && |m.Keys| == |m|;
  }

  // ----- editing a canonical sequence -----

  function InsertAt(s: seq<ResolvedPackage>, i: nat, p: ResolvedPackage): seq<ResolvedPackage>
    requires i <= |s|
  {
    s[..i] + [p] + s[i..]
  }

  function RemoveAt(s: seq<ResolvedPackage>, i: nat): seq<ResolvedPackage>
    requires i < |s|
  {
    s[..i] + s[i + 1..]
  }

  /** `i` is where `n` would have to be inserted. */
  predicate Splits(s: seq<ResolvedPackage>, i: nat, n: u64) {
    && i <= |s|
    && (forall j :: 0 <= j < i ==> s[j].nameHash < n)
    && forall j :: i <= j < |s| ==> n < s[j].nameHash
  }

  lemma InsertKeeps(s: seq<ResolvedPackage>, i: nat, p: ResolvedPackage)
    requires Canonical(s) && Splits(s, i, p.nameHash) && p.nameHash != 0 && p.versionIdx != 0
    ensures Canonical(InsertAt(s, i, p))
    ensures Image(InsertAt(s, i, p)) == Image(s)[p.nameHash := p.versionIdx]
  {
    var t := InsertAt(s, i, p);
    InsertPoints(s, i, p);
    InsertSorted(s, t, i, p);
    hide Image, InsertAt, Canonical;
    ImageIs(s);
    SameImage(t, Image(s)[p.nameHash := p.versionIdx]);
  }

  lemma InsertPoints(s: seq<ResolvedPackage>, i: nat, p: ResolvedPackage)
    requires i <= |s|
    ensures |InsertAt(s, i, p)| == |s| + 1
    ensures forall j :: 0 <= j <= |s| ==> InsertAt(s, i, p)[j] == if j < i then s[j] else if j == i then p else s[j - 1]
    ensures forall q :: q in InsertAt(s, i, p) <==> q in s || q == p
  {
    assert s == s[..i] + s[i..];
  }

  lemma InsertSorted(s: seq<ResolvedPackage>, t: seq<ResolvedPackage>, i: nat, p: ResolvedPackage)
    requires Canonical(s) && Splits(s, i, p.nameHash) && p.nameHash != 0 && p.versionIdx != 0
    requires |t| == |s| + 1
    requires forall j {:trigger t[j]} :: 0 <= j <= |s| ==> t[j] == if j < i then s[j] else if j == i then p else s[j - 1]
    ensures Canonical(t)
    ensures forall q :: q in s ==> q.nameHash != p.nameHash
  {
    forall j, k | 0 <= j < k < |t| ensures t[j].nameHash < t[k].nameHash {
      var a, b := if j < i then j else j - 1, if k < i then k else k - 1;
      assert j != i && k != i ==> s[a].nameHash < s[b].nameHash;
    }
  }

  lemma RemoveKeeps(s: seq<ResolvedPackage>, i: nat)
    requires Canonical(s) && i < |s|
    ensures Canonical(RemoveAt(s, i)) && Image(RemoveAt(s, i)) == Image(s) - {s[i].nameHash}
  {
    var t := RemoveAt(s, i);
    RemovePoints(s, i);
    RemoveSorted(s, t, i);
    hide Image, RemoveAt, Canonical;
    ImageIs(s);
    SameImage(t, Image(s) - {s[i].nameHash});
  }

  lemma RemovePoints(s: seq<ResolvedPackage>, i: nat)
    requires i < |s|
    ensures |RemoveAt(s, i)| == |s| - 1
    ensures forall j :: 0 <= j < |s| - 1 ==> RemoveAt(s, i)[j] == if j < i then s[j] else s[j + 1]
  {
  }

  lemma RemoveSorted(s: seq<ResolvedPackage>, t: seq<ResolvedPackage>, i: nat)
    requires Canonical(s) && i < |s| && |t| == |s| - 1
    requires forall j {:trigger t[j]} :: 0 <= j < |t| ==> t[j] == if j < i then s[j] else s[j + 1]
    ensures Canonical(t)
    ensures forall q :: q in t <==> q in s && q.nameHash != s[i].nameHash
  {
    forall j, k | 0 <= j < k < |t| ensures t[j].nameHash < t[k].nameHash {
      var a, b := if j < i then j else j + 1, if k < i then k else k + 1;
      assert s[a].nameHash < s[b].nameHash;
    }
    forall q | q in s && q.nameHash != s[i].nameHash ensures q in t {
      var j :| 0 <= j < |s| && s[j] == q;
      assert t[if j < i then j else j - 1] == q;
    }
  }

  lemma UpgradeKeeps(s: seq<ResolvedPackage>, i: nat, version: u16)
    requires Canonical(s) && i < |s| && version != 0
    ensures Canonical(s[i := s[i].(versionIdx := version)])
    ensures Image(s[i := s[i].(versionIdx := version)]) == Image(s)[s[i].nameHash := version]
  {
    hide Image;
    var u := s[i].(versionIdx := version);
    var t := s[i := u];
    ImageIs(s);
    forall q ensures q in t <==> (q in s && q.nameHash != u.nameHash) || q == u {
      if q in t {
        var j :| 0 <= j < |t| && t[j] == q;
        assert j == i || s[j] == q;
      }
      if q in s && q.nameHash != u.nameHash {
        var j :| 0 <= j < |s| && s[j] == q;
        assert t[j] == q;
      }
      assert t[i] == u;
    }
    SameImage(t, Image(s)[s[i].nameHash := version]);
  }

  // ----- looking a name up -----

  /** The index of `n`, or the index where it would be inserted. */
  method FindName(s: seq<ResolvedPackage>, n: u64) returns (found: bool, index: nat)
    requires Canonical(s)
    ensures found ==> index < |s| && s[index].nameHash == n
    ensures !found ==> Splits(s, index, n)
    ensures found <==> n in Image(s)
    ensures found ==> Image(s)[n] == s[index].versionIdx
  {
    ImageIs(s);
    var low, high := 0, |s|;
    while low < high
      invariant 0 <= low <= high <= |s|
      invariant forall j :: 0 <= j < low ==> s[j].nameHash < n
      invariant forall j :: high <= j < |s| ==> n < s[j].nameHash
    {
      var mid := low + (high - low) / 2;
      if s[mid].nameHash == n {
        assert s[mid] in s;
        return true, mid;
      }
      if s[mid].nameHash < n {
        low := mid + 1;
      } else {
        high := mid;
      }
    }
    return false, low;
  }

  // ----- counting changes -----

  ghost function Added(before: map<u64, u16>, after: map<u64, u16>): set<u64> {
    after.Keys - before.Keys
  }

  ghost function Changed(before: map<u64, u16>, after: map<u64, u16>): set<u64> {
    set n | n in before && n in after && before[n] != after[n]
  }

  /** The merge position: everything passed on one side lies below what is left on the other. */
  ghost predicate Merged(b: seq<ResolvedPackage>, a: seq<ResolvedPackage>, left: nat, right: nat) {
    && left <= |b| && right <= |a|
    && (forall i, j :: 0 <= i < left && right <= j < |a| ==> b[i].nameHash < a[j].nameHash)
    && (forall i, j :: left <= i < |b| && 0 <= j < right ==> a[j].nameHash < b[i].nameHash)
  }

  lemma PrefixImage(s: seq<ResolvedPackage>, i: nat)
    requires Canonical(s) && i < |s|
    ensures Canonical(s[..i]) && Canonical(s[..i + 1])
    ensures Image(s[..i + 1]) == Image(s[..i])[s[i].nameHash := s[i].versionIdx]
    ensures s[i].nameHash !in Image(s[..i])
    ensures forall n :: n in Image(s[..i]) ==> n in Image(s) && Image(s[..i])[n] == Image(s)[n]
    ensures s[i].nameHash in Image(s) && Image(s)[s[i].nameHash] == s[i].versionIdx
  {
    hide Image;
    var front, t := s[..i], s[..i + 1];
    assert t == front + [s[i]];
    ImageIs(s);
    ImageIs(front);
    assert s[i] in s;
    SameImage(t, Image(front)[s[i].nameHash := s[i].versionIdx]);
    forall n | n in Image(front) ensures n in Image(s) && Image(front)[n] == Image(s)[n] {
      assert ResolvedPackage(n, Image(front)[n]) in s;
    }
  }

  /** A name passed over on one side is missing on the other. */
  lemma NotOpposite(s: seq<ResolvedPackage>, t: seq<ResolvedPackage>, i: nat, j: nat)
    requires Canonical(s) && Canonical(t) && i < |s| && j <= |t|
    requires forall k :: 0 <= k < j ==> t[k].nameHash < s[i].nameHash
    requires j < |t| ==> s[i].nameHash < t[j].nameHash
    ensures s[i].nameHash !in Image(t)
  {
    ImageIs(t);
    forall k | 0 <= k < |t| ensures t[k].nameHash != s[i].nameHash {
      assert j <= k ==> t[j].nameHash <= t[k].nameHash;
    }
  }

  ghost function Names(s: seq<ResolvedPackage>): set<u64> {
    set p | p in s :: p.nameHash
  }

  ghost function ChangedIn(s: seq<ResolvedPackage>, m: map<u64, u16>): set<u64> {
    set p | p in s && p.nameHash in m && m[p.nameHash] != p.versionIdx :: p.nameHash
  }

  lemma NamesOfPrefix(s: seq<ResolvedPackage>, i: nat, m: map<u64, u16>)
    requires Canonical(s) && i < |s|
    ensures Names(s[..i + 1]) == Names(s[..i]) + {s[i].nameHash} && s[i].nameHash !in Names(s[..i])
    ensures ChangedIn(s[..i + 1], m) ==
            if s[i].nameHash in m && m[s[i].nameHash] != s[i].versionIdx then ChangedIn(s[..i], m) + {s[i].nameHash}
            else ChangedIn(s[..i], m)
    ensures s[i].nameHash !in ChangedIn(s[..i], m) && s[i].nameHash in Names(s)
    ensures s[i].nameHash in Image(s) && Image(s)[s[i].nameHash] == s[i].versionIdx
  {
    assert s[..i + 1] == s[..i] + [s[i]];
    ImageIs(s);
    assert s[i] in s;
  }

  lemma NamesAre(b: seq<ResolvedPackage>, a: seq<ResolvedPackage>)
    requires Canonical(b) && Canonical(a)
    ensures Names(b) == Image(b).Keys && ChangedIn(b, Image(a)) == Changed(Image(b), Image(a))
  {
    ImageIs(b);
  }

  /** What has been counted when the walk stands at `left` and `right`. */
  ghost predicate Counted(b: seq<ResolvedPackage>, a: seq<ResolvedPackage>, left: nat, right: nat,
                          installed: nat, removed: nat, upgraded: nat)
    requires Canonical(b) && Canonical(a)
  {
    && Merged(b, a, left, right)
    && installed == |Names(a[..right]) - Names(b)|
    && removed == |Names(b[..left]) - Names(a)|
    && upgraded == |ChangedIn(b[..left], Image(a))|
  }

  lemma CountInstalled(b: seq<ResolvedPackage>, a: seq<ResolvedPackage>, left: nat, right: nat,
                       installed: nat, removed: nat, upgraded: nat)
    requires Canonical(b) && Canonical(a) && Counted(b, a, left, right, installed, removed, upgraded)
    requires right < |a| && (left < |b| ==> b[left].nameHash > a[right].nameHash)
    ensures Counted(b, a, left, right + 1, installed + 1, removed, upgraded)
  {
    hide Image, Names, ChangedIn;
    NamesOfPrefix(a, right, Image(a));
    NamesAre(b, b);
    NotOpposite(a, b, right, left);
    Grows(Names(a[..right]) - Names(b), Names(a[..right + 1]) - Names(b), a[right].nameHash);
    assert forall i :: left <= i < |b| ==> b[left].nameHash <= b[i].nameHash;
  }

  lemma CountRemoved(b: seq<ResolvedPackage>, a: seq<ResolvedPackage>, left: nat, right: nat,
                     installed: nat, removed: nat, upgraded: nat)
    requires Canonical(b) && Canonical(a) && Counted(b, a, left, right, installed, removed, upgraded)
    requires left < |b| && (right < |a| ==> b[left].nameHash < a[right].nameHash)
    ensures Counted(b, a, left + 1, right, installed, removed + 1, upgraded)
  {
    hide Image, Names, ChangedIn;
    NamesOfPrefix(b, left, Image(a));
    NamesAre(a, a);
    NotOpposite(b, a, left, right);
    Grows(Names(b[..left]) - Names(a), Names(b[..left + 1]) - Names(a), b[left].nameHash);
    assert forall i :: right <= i < |a| ==> a[right].nameHash <= a[i].nameHash;
  }

  lemma CountCommon(b: seq<ResolvedPackage>, a: seq<ResolvedPackage>, left: nat, right: nat,
                    installed: nat, removed: nat, upgraded: nat)
    requires Canonical(b) && Canonical(a) && Counted(b, a, left, right, installed, removed, upgraded)
    requires left < |b| && right < |a| && b[left].nameHash == a[right].nameHash
    ensures Counted(b, a, left + 1, right + 1, installed, removed,
                    if b[left].versionIdx != a[right].versionIdx then upgraded + 1 else upgraded)
  {
    hide Image, Names, ChangedIn;
    NamesOfPrefix(b, left, Image(a));
    NamesOfPrefix(a, right, Image(a));
    assert Names(a[..right + 1]) - Names(b) == Names(a[..right]) - Names(b);
    assert Names(b[..left + 1]) - Names(a) == Names(b[..left]) - Names(a);
    if b[left].versionIdx != a[right].versionIdx {
      Grows(ChangedIn(b[..left], Image(a)), ChangedIn(b[..left + 1], Image(a)), b[left].nameHash);
    }
    assert Merged(b, a, left + 1, right + 1);
  }

  lemma CountStarts(b: seq<ResolvedPackage>, a: seq<ResolvedPackage>)
    requires Canonical(b) && Canonical(a)
    ensures Counted(b, a, 0, 0, 0, 0, 0)
  {
    hide Image;
    NothingPassed(b, a);
  }

  lemma CountEnds(b: seq<ResolvedPackage>, a: seq<ResolvedPackage>, installed: nat, removed: nat, upgraded: nat)
    requires Canonical(b) && Canonical(a) && Counted(b, a, |b|, |a|, installed, removed, upgraded)
    ensures installed == |Added(Image(b), Image(a))| && removed == |Added(Image(a), Image(b))|
    ensures upgraded == |Changed(Image(b), Image(a))|
  {
    NamesAre(b, a);
    NamesAre(a, b);
    assert b[..|b|] == b && a[..|a|] == a;
  }

  /** Walks two canonical images side by side and counts what was added, removed and changed. */
  method Delta(b: seq<ResolvedPackage>, a: seq<ResolvedPackage>) returns (installed: nat, removed: nat, upgraded: nat)
    requires Canonical(b) && Canonical(a)
    ensures installed == |Added(Image(b), Image(a))|
    ensures removed == |Added(Image(a), Image(b))|
    ensures upgraded == |Changed(Image(b), Image(a))|
  {
    hide Canonical, Counted, Image;
    var left, right := 0, 0;
    installed, removed, upgraded := 0, 0, 0;
    CountStarts(b, a);
    while left < |b| || right < |a|
      invariant left <= |b| && right <= |a| && Counted(b, a, left, right, installed, removed, upgraded)
      decreases |b| + |a| - left - right
    {
      if left == |b| {
        CountInstalled(b, a, left, right, installed, removed, upgraded);
        installed, right := installed + 1, right + 1;
      } else if right == |a| || b[left].nameHash < a[right].nameHash {
        CountRemoved(b, a, left, right, installed, removed, upgraded);
        removed, left := removed + 1, left + 1;
      } else if b[left].nameHash > a[right].nameHash {
        CountInstalled(b, a, left, right, installed, removed, upgraded);
        installed, right := installed + 1, right + 1;
      } else {
        CountCommon(b, a, left, right, installed, removed, upgraded);
        if b[left].versionIdx != a[right].versionIdx {
          upgraded := upgraded + 1;
        }
        left, right := left + 1, right + 1;
      }
    }
    CountEnds(b, a, installed, removed, upgraded);
  }

  lemma NothingPassed(b: seq<ResolvedPackage>, a: seq<ResolvedPackage>)
    ensures Names(b[..0]) == {} && Names(a[..0]) == {} && forall m :: ChangedIn(b[..0], m) == {}
  {
  }

  lemma Grows(s: set<u64>, t: set<u64>, n: u64)
    requires n !in s && t == s + {n}
    ensures |t| == |s| + 1
  {
  }

  /** No counted change means the same image. */
  lemma NoChangeIsEqual(b: seq<ResolvedPackage>, a: seq<ResolvedPackage>)
    requires Canonical(b) && Canonical(a)
    ensures b == a <==> Added(Image(b), Image(a)) == {} && Added(Image(a), Image(b)) == {} && Changed(Image(b), Image(a)) == {}
  {
    if Added(Image(b), Image(a)) == {} && Added(Image(a), Image(b)) == {} && Changed(Image(b), Image(a)) == {} {
      assert Image(b).Keys == Image(a).Keys;
      forall n | n in Image(b) ensures Image(b)[n] == Image(a)[n] {
        assert n !in Changed(Image(b), Image(a));
      }
      CanonicalUnique(b, a);
    }
  }
}
