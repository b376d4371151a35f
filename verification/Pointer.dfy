/** The text of the active pointer in src/store.rs: a digest in lower-case hexadecimal and a newline. */
module Pointer {
  import opened Bytes
  import opened Generation
  import opened Results

  const NEWLINE: u8 := 10
  /** All zero: stands for no generation. */
  const NO_GENERATION: Digest := ToLe(DIGEST_BYTES, 0)

  function HexDigit(n: nat): u8
    requires n < 16
  {
    if n < 10 then 48 + n else 87 + n
  }

  function HexValue(b: u8): Option<nat> {
    if 48 <= b <= 57 then Some(b - 48) else if 97 <= b <= 102 then Some(b - 87) else None
  }

  lemma DigitValue(b: u8)
    ensures HexValue(b).Some? ==> HexValue(b).value < 16 && HexDigit(HexValue(b).value) == b
    ensures forall n :: 0 <= n < 16 && HexDigit(n) == b ==> HexValue(b) == Some(n)
  {
  }

  function Hex(d: seq<u8>): (s: seq<u8>)
    ensures |s| == 2 * |d|
  {
    if d == [] then [] else Hex(d[..|d| - 1]) + [HexDigit(d[|d| - 1] / 16), HexDigit(d[|d| - 1] % 16)]
  }

  lemma {:induction false} HexAt(d: seq<u8>, i: nat)
    requires i < |d|
    ensures Hex(d)[2 * i] == HexDigit(d[i] / 16) && Hex(d)[2 * i + 1] == HexDigit(d[i] % 16)
  {
    if i >= |d| - 1 {
    } else {
      HexAt(d[..|d| - 1], i);
    }
  }

  function PointerText(d: Digest): seq<u8> {
    Hex(d) + [NEWLINE]
  }

  /** A pointer is sixty-four digits in lower case and a line feed. */
  lemma PointerIsSpelled(d: Digest, i: nat)
    requires |d| == 32 && i < 32
    ensures |PointerText(d)| == 65 && PointerText(d)[64] == 10
    ensures var digits := [48, 49, 50, 51, 52, 53, 54, 55, 56, 57, 97, 98, 99, 100, 101, 102];
            PointerText(d)[2 * i] == digits[d[i] / 16] && PointerText(d)[2 * i + 1] == digits[d[i] % 16]
  {
    HexAt(d, i);
  }

  /** Different digests have different names. */
  lemma HexInjective(a: seq<u8>, b: seq<u8>)
    requires Hex(a) == Hex(b)
    ensures a == b
  {
    forall i | 0 <= i < |a| ensures a[i] == b[i] {
      HexAt(a, i);
      HexAt(b, i);
      DigitValue(Hex(a)[2 * i]);
      DigitValue(Hex(a)[2 * i + 1]);
    }
  }

  method EncodeDigest(d: Digest) returns (s: seq<u8>)
    ensures s == Hex(d)
  {
    s := [];
    for i := 0 to |d|
      invariant s == Hex(d[..i])
    {
      assert d[..i + 1][..i] == d[..i];
      s := s + [HexDigit(d[i] / 16), HexDigit(d[i] % 16)];
    }
    assert d[..|d|] == d;
  }

  /** Accepts exactly the pointer texts of digests other than the null one. */
  method DecodePointer(bytes: seq<u8>) returns (r: Option<Digest>)
    ensures r.Some? ==> |r.value| == DIGEST_BYTES && r.value != NO_GENERATION && PointerText(r.value) == bytes
    ensures forall d :: |d| == DIGEST_BYTES && d != NO_GENERATION && PointerText(d) == bytes ==> r == Some(d)
  {
    hide HexDigit, HexValue, Hex;
    assert Hex([]) == [] by {
      NoDigits();
    }
    if |bytes| != 65 || bytes[64] != NEWLINE {
      return None;
    }
    var digest: seq<u8> := [];
    while |digest| < DIGEST_BYTES
      invariant |digest| <= DIGEST_BYTES && Hex(digest) == bytes[..2 * |digest|]
      decreases DIGEST_BYTES - |digest|
    {
      var i := |digest|;
      var high, low := HexValue(bytes[2 * i]), HexValue(bytes[2 * i + 1]);
      if high.None? || low.None? {
        NotHex(bytes, i);
        return None;
      }
      HexGrows(digest, bytes, 2 * i, high.value, low.value);
      digest := digest + [16 * high.value + low.value];
    }
    assert bytes == bytes[..64] + [bytes[64]];
    OnlyPointer(bytes, digest);
    return if digest == NO_GENERATION then None else Some(digest);
  }

  lemma NoDigits()
    ensures Hex([]) == []
  {
  }

  lemma HexTwo(d: seq<u8>, x: nat, y: nat)
    requires x < 16 && y < 16
    ensures Hex(d + [16 * x + y]) == Hex(d) + [HexDigit(x), HexDigit(y)]
  {
    var e := d + [16 * x + y];
    assert e[..|e| - 1] == d;
    assert (16 * x + y) / 16 == x && (16 * x + y) % 16 == y;
  }

  lemma TakeTwo(bytes: seq<u8>, n: nat)
    requires n + 1 < |bytes|
    ensures bytes[..n + 2] == bytes[..n] + [bytes[n], bytes[n + 1]]
  {
  }

  /** Two digits more are one byte more. */
  lemma HexGrows(digest: seq<u8>, bytes: seq<u8>, n: nat, high: nat, low: nat)
    requires n + 1 < |bytes| && Hex(digest) == bytes[..n]
    requires HexValue(bytes[n]) == Some(high) && HexValue(bytes[n + 1]) == Some(low)
    ensures high < 16 && low < 16
    ensures Hex(digest + [16 * high + low]) == bytes[..n + 2]
  {
    hide *;
    DigitValue(bytes[n]);
    DigitValue(bytes[n + 1]);
    HexTwo(digest, high, low);
    TakeTwo(bytes, n);
  }

  lemma OnlyPointer(bytes: seq<u8>, digest: Digest)
    requires PointerText(digest) == bytes
    ensures forall d :: PointerText(d) == bytes ==> d == digest
  {
    forall d | PointerText(d) == bytes ensures d == digest {
      assert Hex(d) == bytes[..|bytes| - 1] == Hex(digest);
      HexInjective(d, digest);
    }
  }

  lemma NotHex(bytes: seq<u8>, i: nat)
    requires |bytes| == 65 && i < DIGEST_BYTES
    requires HexValue(bytes[2 * i]).None? || HexValue(bytes[2 * i + 1]).None?
    ensures forall d :: |d| == DIGEST_BYTES ==> PointerText(d) != bytes
  {
    forall d: Digest | |d| == DIGEST_BYTES ensures PointerText(d) != bytes {
      HexAt(d, i);
      DigitValue(Hex(d)[2 * i]);
      DigitValue(Hex(d)[2 * i + 1]);
      assert PointerText(d)[2 * i] == Hex(d)[2 * i] && PointerText(d)[2 * i + 1] == Hex(d)[2 * i + 1];
    }
  }
}
