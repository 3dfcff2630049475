/** Octets and the big-endian integers of the snapshot stream (savevm.c). */
module Bytes {
  type u8 = x: int | 0 <= x < 256

  const TWO64: nat := 0x1_0000_0000_0000_0000

  function Pow256(n: nat): (p: nat)
    ensures p > 0
  {
    if n == 0 then 1 else 256 * Pow256(n - 1)
  }

  lemma Pow256Of8()
    ensures Pow256(8) == TWO64
  {
    assert Pow256(4) == 0x1_0000_0000;
  }

  /** The low n octets of v, most significant first: qemu_put_be16/32/64. */
  function Be(v: nat, n: nat): (s: seq<u8>)
    ensures |s| == n
  {
    if n == 0 then [] else Be(v / 256, n - 1) + [v % 256]
  }

  /** qemu_get_be16/32/64 on the octets read. */
  function FromBe(s: seq<u8>): (v: nat)
    ensures v < Pow256(|s|)
  {
    if s == [] then 0 else FromBe(s[..|s| - 1]) * 256 + s[|s| - 1] as int
  }

  lemma {:induction false} BeRoundTrip(v: nat, n: nat)
    requires v < Pow256(n)
    ensures FromBe(Be(v, n)) == v
  {
    if n > 0 {
      BeRoundTrip(v / 256, n - 1);
      assert Be(v, n)[..n - 1] == Be(v / 256, n - 1);
    }
  }

  /** The first octet is the most significant one. */
  lemma {:induction false} FromBeHead(s: seq<u8>)
    requires s != []
    ensures FromBe(s) == s[0] as int * Pow256(|s| - 1) + FromBe(s[1..])
  {
    var n := |s| - 1;
    if n > 0 {
      FromBeHead(s[..n]);
      assert s[..n][1..] == s[1..][..n - 1] && s[1..][n - 1] == s[n];
      Shifted(s[0], Pow256(n - 1), FromBe(s[1..][..n - 1]), s[n]);
    }
  }

  lemma Shifted(a: u8, p: nat, b: nat, c: u8)
    ensures (a as int * p + b) * 256 + c as int == a as int * (256 * p) + (b * 256 + c as int)
  {
  }

  function Be64(v: nat): (s: seq<u8>)
    ensures |s| == 8
  {
    Be(v, 8)
  }

  lemma Be64RoundTrip(v: nat)
    requires v < TWO64
    ensures FromBe(Be64(v)) == v
  {
    Pow256Of8();
    BeRoundTrip(v, 8);
  }

  lemma {:induction false} FromBeZeros(s: seq<u8>)
    requires forall i :: 0 <= i < |s| ==> s[i] == 0
    ensures FromBe(s) == 0
  {
    if s != [] {
      FromBeZeros(s[..|s| - 1]);
    }
  }
}
