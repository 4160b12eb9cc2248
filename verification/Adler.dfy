/** The Adler-32 checksum: RFC 1950 section 8.2 and the deferred-modulo loop that computes it. */
module Adler {
  import opened Bits

  const MODULUS: nat := 65521

  /** The two sums of RFC 1950 section 8.2, reduced after every byte. */
  function Sums(data: seq<byte>): (r: (nat, nat))
    ensures r.0 < MODULUS && r.1 < MODULUS
  {
    if data == [] then (1, 0) else
      var (a, b) := Sums(data[..|data| - 1]);
      var a' := (a + data[|data| - 1]) % 65521;
      (a', (b + a') % 65521)
  }

  function Trailer(data: seq<byte>): (r: seq<byte>)
    ensures |r| == 4
  {
    var (a, b) := Sums(data);
    [b / 256, b % 256, a / 256, a % 256]
  }

  /** Sums with the modulo taken once per block: |data| % 5552 bytes, then 5552 at a time. */
  method Checksum(data: seq<byte>) returns (s1: nat, s2: nat)
    ensures (s1, s2) == Sums(data)
  {
    s1, s2 := 1, 0;
    var blocklen := |data| % 5552;
    var j := 0;
    while j < |data|
      invariant 0 <= j <= |data| && (s1, s2) == Sums(data[..j])
      invariant 0 <= blocklen <= 5552 && (|data| - j) % 5552 == blocklen % 5552
      invariant j > 0 ==> blocklen == 5552
      decreases |data| - j, 5552 - blocklen
    {
      s1, s2 := AddBlock(data, j, blocklen, s1, s2);
      s1 := s1 % MODULUS;
      s2 := s2 % MODULUS;
      j := j + blocklen;
      blocklen := 5552;
    }
    assert data[..j] == data;
  }

  /** The inner loop: unsigned 32-bit additions that never wrap. */
  method AddBlock(data: seq<byte>, j: nat, blocklen: nat, a: nat, b: nat) returns (s1: nat, s2: nat)
    requires j + blocklen <= |data| && blocklen <= 5552 && (a, b) == Sums(data[..j])
    ensures (s1 % MODULUS, s2 % MODULUS) == Sums(data[..j + blocklen])
  {
    s1, s2 := a, b;
    var i := 0;
    while i < blocklen
      invariant 0 <= i <= blocklen
      invariant (s1 % MODULUS, s2 % MODULUS) == Sums(data[..j + i])
      invariant s1 <= 65520 + 255 * i
      invariant s2 <= 65520 + 65520 * i + 255 * Tri(i)
    {
      Step(data, j + i, s1, s2);
      TriBound(i + 1);
      s1 := Add32(s1, data[j + i]);
      s2 := Add32(s2, s1);
      i := i + 1;
    }
  }

  /** An `unsigned int` addition that does not wrap around. */
  function Add32(x: nat, y: nat): (z: nat)
    requires x + y < TWO32
    ensures z == x + y
  {
    (x + y) % TWO32
  }

  lemma Step(data: seq<byte>, k: nat, s1: nat, s2: nat)
    requires k < |data| && (s1 % MODULUS, s2 % MODULUS) == Sums(data[..k])
    ensures ((s1 + data[k]) % MODULUS, (s2 + (s1 + data[k])) % MODULUS) == Sums(data[..k + 1])
  {
    var prefix := data[..k + 1];
    assert prefix[..|prefix| - 1] == data[..k];
    ModAdd(s1, data[k]);
    ModAdd(s2, s1 + data[k]);
    ModAdd(s2 % MODULUS, s1 + data[k]);
  }

  lemma ModAdd(x: nat, y: nat)
    ensures (x + y) % MODULUS == (x % MODULUS + y) % MODULUS == (x % MODULUS + y % MODULUS) % MODULUS
  {
  }

  /** 0 + 1 + ... + i */
  ghost function Tri(i: nat): nat
  {
    if i == 0 then 0 else Tri(i - 1) + i
  }

  lemma {:induction false} TriClosed(i: nat)
    ensures 2 * Tri(i) == i * i + i
  {
    if i > 0 {
      TriClosed(i - 1);
      assert (i - 1) * (i - 1) == i * i - 2 * i + 1;
    }
  }

  lemma {:induction false} TriBound(i: nat)
    requires i <= 5552
    ensures Tri(i) <= 15415128
    decreases 5552 - i
  {
    if i == 5552 { TriClosed(5552); } else { TriBound(i + 1); }
  }
}
