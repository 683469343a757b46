/** Fixed-width big-endian numbers and zero padding, the two building blocks of every encoding
    in ponos/pkg/util and ponos/pkg/types. */
module Bytes {

  type byte = b: int | 0 <= b < 256

  function Pow256(n: nat): (p: nat)
    ensures p > 0
  {
    if n == 0 then 1 else 256 * Pow256(n - 1)
  }

  /** The low `width` bytes of v, most significant first. */
  function ToBE(v: nat, width: nat): (b: seq<byte>)
    ensures |b| == width
  {
    if width == 0 then [] else ToBE(v / 256, width - 1) + [v % 256]
  }

  function FromBE(b: seq<byte>): nat
  {
    if b == [] then 0 else FromBE(b[..|b| - 1]) * 256 + b[|b| - 1]
  }

  /** The digit at position i counts Pow256(width - 1 - i): the most significant one comes first. */
  lemma {:induction false} DigitAt(v: nat, width: nat, i: nat)
    requires i < width
    ensures ToBE(v, width)[i] == v / Pow256(width - 1 - i) % 256
  {
    if i < width - 1 {
      DigitAt(v / 256, width - 1, i);
      var p := Pow256(width - 2 - i);
      assert Pow256(width - 1 - i) == 256 * p;
      DivideTwice(v, p);
    }
  }

  lemma DivideTwice(v: nat, p: nat)
    requires p > 0
    ensures v / 256 / p == v / (256 * p)
  {
    var q, r := v / 256, v % 256;
    var s, u := q / p, q % p;
    assert v == 256 * q + r && q == p * s + u;
    assert v == (256 * p) * s + (256 * u + r);
    QuotientOf(v, 256 * p, s, 256 * u + r);
  }

  lemma QuotientOf(v: int, d: int, q: int, r: int)
    requires d > 0 && v == d * q + r && 0 <= r < d
    ensures v / d == q
  {
    var k := v / d - q;
    assert v == d * (v / d) + v % d;
    assert d * k == r - v % d;
    assert k >= 1 ==> d * k >= d;
    assert k <= -1 ==> d * k <= -d;
  }

  lemma {:induction false} FromToBE(v: nat, width: nat)
    requires v < Pow256(width)
    ensures FromBE(ToBE(v, width)) == v
  {
    if width > 0 {
      var b := ToBE(v, width);
      assert b[..width - 1] == ToBE(v / 256, width - 1);
      FromToBE(v / 256, width - 1);
    }
  }

  lemma {:induction false} ToFromBE(b: seq<byte>)
    ensures FromBE(b) < Pow256(|b|)
    ensures ToBE(FromBE(b), |b|) == b
  {
    if b != [] {
      var front := b[..|b| - 1];
      ToFromBE(front);
      assert (FromBE(front) * 256 + b[|b| - 1]) / 256 == FromBE(front);
      assert b == front + [b[|b| - 1]];
    }
  }

  function Zeros(n: nat): (z: seq<byte>)
    ensures |z| == n && forall i :: 0 <= i < n ==> z[i] == 0
  {
    seq(n, _ => 0)
  }

  /** common.LeftPadBytes, and SetBytes of common.Hash and common.Address: keep the last n bytes,
      or fill up with zero bytes on the left. */
  function FitLeft(b: seq<byte>, n: nat): (r: seq<byte>)
    ensures |r| == n
    ensures |b| <= n ==> r[n - |b|..] == b && forall i :: 0 <= i < n - |b| ==> r[i] == 0
    ensures |b| > n ==> r == b[|b| - n..]
  {
    if |b| > n then b[|b| - n..] else Zeros(n - |b|) + b
  }

  lemma {:induction false} LeadingZeros(n: nat, b: seq<byte>)
    ensures FromBE(Zeros(n) + b) == FromBE(b)
    decreases n + |b|
  {
    if b != [] {
      var all := Zeros(n) + b;
      assert all[..|all| - 1] == Zeros(n) + b[..|b| - 1];
      LeadingZeros(n, b[..|b| - 1]);
    } else if n > 0 {
      var all := Zeros(n) + b;
      assert all[..|all| - 1] == Zeros(n - 1) + [];
      LeadingZeros(n - 1, []);
    }
  }

  /** A padded fixed-width integer is the 32-byte ABI word of its value. */
  lemma PaddedIntegerIsWord(v: nat, width: nat)
    requires width <= 32 && v < Pow256(width)
    ensures FitLeft(ToBE(v, width), 32) == ToBE(v, 32)
    ensures FromBE(FitLeft(ToBE(v, width), 32)) == v
  {
    var w := FitLeft(ToBE(v, width), 32);
    LeadingZeros(32 - width, ToBE(v, width));
    FromToBE(v, width);
    ToFromBE(w);
  }

  lemma Pow256Values()
    ensures Pow256(4) == 0x1_0000_0000
    ensures Pow256(8) == 0x1_0000_0000_0000_0000
  {
    assert Pow256(2) == 0x1_0000;
    assert Pow256(4) == 256 * (256 * Pow256(2));
    assert Pow256(6) == 256 * (256 * Pow256(4));
    assert Pow256(8) == 256 * (256 * Pow256(6));
  }
}
