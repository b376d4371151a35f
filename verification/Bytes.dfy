/** Little-endian byte strings. */
module Bytes {
  type u8 = x: int | 0 <= x < 256

  /** The control characters of ASCII. */
  const CONTROL_CODES: set<int> := {
    0, 1, 2, 3, 4, 5, 6, 7, 8, 9, 10, 11, 12, 13, 14, 15, 16, 17, 18, 19, 20, 21, 22, 23, 24, 25, 26, 27, 28, 29, 30, 31, 127
  }

  ghost function Pow256(n: nat): nat {
    if n == 0 then 1 else 256 * Pow256(n - 1)
  }

  /** `v` in `n` bytes, least significant first. */
  function ToLe(n: nat, v: nat): (b: seq<u8>)
    ensures |b| == n
  {
    if n == 0 then [] else [v % 256] + ToLe(n - 1, v / 256)
  }

  function FromLe(b: seq<u8>): nat {
    if b == [] then 0 else b[0] + 256 * FromLe(b[1..])
  }

  lemma {:induction false} FromLeBound(b: seq<u8>)
    ensures FromLe(b) < Pow256(|b|)
  {
    if b == [] {
    } else {
      FromLeBound(b[1..]);
    }
  }

  lemma {:induction false} FromToLe(n: nat, v: nat)
    requires v < Pow256(n)
    ensures FromLe(ToLe(n, v)) == v
  {
    if n == 0 {
    } else {
      FromToLe(n - 1, v / 256);
      assert ToLe(n, v)[1..] == ToLe(n - 1, v / 256);
    }
  }

  lemma {:induction false} ToFromLe(b: seq<u8>)
    ensures ToLe(|b|, FromLe(b)) == b
  {
    if b == [] {
    } else {
      ToFromLe(b[1..]);
      LowByte(b[0], FromLe(b[1..]));
      assert b == [b[0]] + b[1..];
    }
  }

  lemma SmallLe(v: nat)
    requires v < 256
    ensures ToLe(2, v) == [v, 0] && ToLe(4, v) == [v, 0, 0, 0]
  {
    assert ToLe(1, 0) == [0] && ToLe(2, 0) == [0, 0] && ToLe(3, 0) == [0, 0, 0];
    assert v / 256 == 0 && v % 256 == v;
  }

  /** Byte `k` counts 256 to the power of `k`. */
  lemma {:induction false} ToLeAt(n: nat, v: nat, k: nat)
    requires k < n
    ensures Pow256(k) > 0 && ToLe(n, v)[k] == v / Pow256(k) % 256
  {
    if k == 0 {
    } else {
      ToLeAt(n - 1, v / 256, k - 1);
      DivideTwice(v, Pow256(k - 1));
    }
  }

  lemma DivideTwice(v: nat, b: nat)
    requires b > 0
    ensures v / 256 / b == v / (256 * b)
  {
    var q, s := v / 256, v / 256 / b;
    assert q == b * s + q % b;
    Regroup(b, s);
    QuotientIs(v, 256 * b, s, 256 * (q % b) + v % 256);
  }

  lemma Regroup(b: nat, s: nat)
    ensures 256 * (b * s) == (256 * b) * s
  {
  }

  lemma QuotientIs(v: nat, d: nat, s: nat, r: nat)
    requires r < d && v == d * s + r
    ensures v / d == s
  {
    var q := v / d;
    assert v == d * q + v % d;
    Spread(d, q, s);
  }

  /** Different multiples of `d` are at least `d` apart. */
  lemma Spread(d: nat, q: nat, s: nat)
    ensures q > s ==> d * q >= d * s + d
    ensures q < s ==> d * s >= d * q + d
  {
    if q > s {
      assert d * q == d * s + d * (q - s);
      AtLeastOnce(d, q - s);
    } else if q < s {
      assert d * s == d * q + d * (s - q);
      AtLeastOnce(d, s - q);
    }
  }

  lemma AtLeastOnce(d: nat, x: nat)
    requires x >= 1
    ensures d * x >= d
  {
  }

  lemma LowByte(x: nat, y: nat)
    requires x < 256
    ensures (x + 256 * y) % 256 == x && (x + 256 * y) / 256 == y
  {
  }

  lemma Widths()
    ensures Pow256(2) == 0x1_0000 && Pow256(4) == 0x1_0000_0000 && Pow256(8) == 0x1_0000_0000_0000_0000
  {
    assert Pow256(4) == 256 * Pow256(3) && Pow256(3) == 256 * Pow256(2);
    assert Pow256(6) == 256 * Pow256(5) && Pow256(5) == 256 * Pow256(4);
    assert Pow256(8) == 256 * Pow256(7) && Pow256(7) == 256 * Pow256(6);
  }
}
