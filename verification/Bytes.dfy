/** Octets and little-endian integers. */
module Bytes {

  newtype byte = x: int | 0 <= x < 256

  /** 256 to the power `n`: how many values `n` octets hold. */
  function Range(n: nat): (r: nat)
    ensures r > 0
  {
    if n == 0 then 1 else 256 * Range(n - 1)
  }

  /** The `n` low octets of `v`, least significant first. A value too wide is truncated. */
  function Le(v: nat, n: nat): (s: seq<byte>)
    ensures |s| == n
  {
    if n == 0 then [] else [(v % 256) as byte] + Le(v / 256, n - 1)
  }

  function FromLe(s: seq<byte>): nat {
    if s == [] then 0 else s[0] as nat + 256 * FromLe(s[1..])
  }

  lemma {:induction false} LeRoundTrip(v: nat, n: nat)
    requires v < Range(n)
    ensures FromLe(Le(v, n)) == v
  {
    if n > 0 {
      LeRoundTrip(v / 256, n - 1);
      assert Le(v, n)[1..] == Le(v / 256, n - 1);
    }
  }

  lemma {:induction false} FromLeBound(s: seq<byte>)
    ensures FromLe(s) < Range(|s|)
  {
    if s != [] {
      FromLeBound(s[1..]);
    }
  }

  lemma Ranges()
    ensures Range(1) == 0x100 && Range(2) == 0x1_0000 && Range(4) == 0x1_0000_0000
    ensures Range(8) == 0x1_0000_0000_0000_0000
  {
    assert Range(3) == 256 * Range(2);
    assert Range(5) == 256 * Range(4);
    assert Range(7) == 256 * Range(6);
  }

  function U16At(b: seq<byte>, pos: nat): (v: nat)
    requires pos + 2 <= |b|
    ensures v < 0x1_0000
  {
    Ranges();
    FromLeBound(b[pos..pos + 2]);
    FromLe(b[pos..pos + 2])
  }

  function U32At(b: seq<byte>, pos: nat): (v: nat)
    requires pos + 4 <= |b|
    ensures v < 0x1_0000_0000
  {
    Ranges();
    FromLeBound(b[pos..pos + 4]);
    FromLe(b[pos..pos + 4])
  }

  /** Reading a 2- or 4-octet integer back from where it was written. */
  lemma U16Written(b: seq<byte>, pos: nat, v: nat)
    requires v < 0x1_0000 && pos + 2 <= |b| && b[pos..pos + 2] == Le(v, 2)
    ensures U16At(b, pos) == v
  {
    Ranges();
    LeRoundTrip(v, 2);
  }

  lemma U32Written(b: seq<byte>, pos: nat, v: nat)
    requires v < 0x1_0000_0000 && pos + 4 <= |b| && b[pos..pos + 4] == Le(v, 4)
    ensures U32At(b, pos) == v
  {
    Ranges();
    LeRoundTrip(v, 4);
  }

  lemma LeTwo(v: nat)
    requires v < 256
    ensures Le(v, 2) == [v as byte, 0]
  {
    assert Le(0, 1) == [0] + Le(0, 0);
  }

  lemma FromTwo(b: seq<byte>, pos: nat)
    requires pos + 2 <= |b|
    ensures U16At(b, pos) == b[pos] as nat + 256 * b[pos + 1] as nat
  {
    var s := b[pos..pos + 2];
    assert s[1..][1..] == [] && s[1..][0] == b[pos + 1];
    assert FromLe(s[1..]) == b[pos + 1] as nat + 256 * FromLe([]);
  }

  /** Least significant octet first: octet `k` is digit `k` of `v` in base 256. */
  lemma {:induction false} LeDigit(v: nat, n: nat, k: nat)
    requires k < n
    ensures Le(v, n)[k] as nat == (v / Range(k)) % 256
  {
    if k > 0 {
      LeDigit(v / 256, n - 1, k - 1);
      DivTwice(v, Range(k - 1));
    }
  }

  lemma DivTwice(v: nat, m: nat)
    requires m > 0
    ensures v / 256 / m == v / (256 * m)
  {
    var q := v / 256 / m;
    var r := v / 256 % m;
    assert v / 256 == q * m + r;
    assert v == 256 * (q * m + r) + v % 256;
    assert v == q * (256 * m) + (256 * r + v % 256);
    assert 256 * r + v % 256 < 256 * m;
    QuotientIs(v, 256 * m, q, 256 * r + v % 256);
  }

  lemma QuotientIs(v: nat, d: nat, q: nat, r: nat)
    requires d > 0 && r < d && v == q * d + r
    ensures v / d == q
  {
    var p := v / d;
    assert p * d <= v < p * d + d;
    assert (p - q) * d == p * d - q * d && (q - p) * d == q * d - p * d;
    NotAWhole(p - q, d);
    NotAWhole(q - p, d);
  }

  lemma NotAWhole(x: int, d: nat)
    requires d > 0 && x * d < d
    ensures x < 1
  {
  }
}
