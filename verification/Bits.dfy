/** Bytes, bit strings and the bitwise operators of the C code, on natural numbers. */
module Bits {

  type byte = x: int | 0 <= x < 256

  datatype Option<+T> = None | Some(value: T)

  const TWO32: nat := 0x1_0000_0000

  function Pow2(n: nat): (p: nat)
    ensures p >= 1
  {
    if n == 0 then 1 else 2 * Pow2(n - 1)
  }

  /** The `n` low bits of `v`, least significant first. */
  function LowBits(v: nat, n: nat): (r: seq<bool>)
    ensures |r| == n
  {
    if n == 0 then [] else [v % 2 == 1] + LowBits(v / 2, n - 1)
  }

  /** The `n` low bits of `v`, most significant first. */
  function HighBits(v: nat, n: nat): (r: seq<bool>)
    ensures |r| == n
  {
    if n == 0 then [] else HighBits(v / 2, n - 1) + [v % 2 == 1]
  }

  /** The number whose bits are `b`, least significant first. */
  function FromLow(b: seq<bool>): nat
  {
    if b == [] then 0 else (if b[0] then 1 else 0) + 2 * FromLow(b[1..])
  }

  /** The number whose bits are `b`, most significant first. */
  function FromHigh(b: seq<bool>): nat
  {
    if b == [] then 0 else 2 * FromHigh(b[..|b| - 1]) + (if b[|b| - 1] then 1 else 0)
  }

  /** Bitwise `|` and `^`. */
  function Or(a: nat, b: nat): nat
    decreases a + b
  {
    if a == 0 then b else if b == 0 then a
    else 2 * Or(a / 2, b / 2) + (if a % 2 == 1 || b % 2 == 1 then 1 else 0)
  }

  function Xor(a: nat, b: nat): nat
    decreases a + b
  {
    if a == 0 then b else if b == 0 then a
    else 2 * Xor(a / 2, b / 2) + (if a % 2 != b % 2 then 1 else 0)
  }

  /** A byte string as bits, each byte least significant bit first. */
  function ByteBits(s: seq<byte>): (r: seq<bool>)
    ensures |r| == 8 * |s|
  {
    if s == [] then [] else LowBits(s[0], 8) + ByteBits(s[1..])
  }

  /** A bit string as whole bytes, the inverse of ByteBits. */
  function BitBytes(b: seq<bool>): (s: seq<byte>)
    requires |b| % 8 == 0
    ensures |s| == |b| / 8
  {
    if b == [] then [] else
      LowBound(b[..8]);
      [FromLow(b[..8])] + BitBytes(b[8..])
  }

  lemma {:induction false} LowBound(b: seq<bool>)
    ensures FromLow(b) < Pow2(|b|)
  {
    if b != [] { LowBound(b[1..]); }
    assert Pow2(8) == 256;
  }

  lemma {:induction false} FromLowBits(v: nat, n: nat)
    requires v < Pow2(n)
    ensures FromLow(LowBits(v, n)) == v
  {
    if n > 0 {
      FromLowBits(v / 2, n - 1);
      assert LowBits(v, n)[1..] == LowBits(v / 2, n - 1);
    }
  }

  lemma {:induction false} FromHighBits(v: nat, n: nat)
    requires v < Pow2(n)
    ensures FromHigh(HighBits(v, n)) == v
  {
    if n > 0 {
      FromHighBits(v / 2, n - 1);
      assert HighBits(v, n)[..n - 1] == HighBits(v / 2, n - 1);
    }
  }

  lemma Scale(c: nat, p: nat)
    requires p > 0
    ensures c * (2 * p) == 2 * (c * p) && (c > 0 ==> c * p > 0)
  {
  }

  /** Or-ing a field in above the `k` bits already there appends its bits. */
  lemma {:induction false} OrAbove(b: nat, k: nat, c: nat)
    requires b < Pow2(k)
    ensures Or(b, c * Pow2(k)) == b + c * Pow2(k)
  {
    if k > 0 && b > 0 && c > 0 {
      Scale(c, Pow2(k - 1));
      OrAbove(b / 2, k - 1, c);
    }
  }

  lemma {:induction false} LowBitsAppend(b: nat, k: nat, c: nat, n: nat)
    requires b < Pow2(k)
    ensures LowBits(b + c * Pow2(k), k + n) == LowBits(b, k) + LowBits(c, n)
  {
    if k > 0 {
      Scale(c, Pow2(k - 1));
      assert (b + c * Pow2(k)) / 2 == b / 2 + c * Pow2(k - 1);
      LowBitsAppend(b / 2, k - 1, c, n);
    }
  }

  lemma LowByteSplit(v: nat, n: nat)
    ensures LowBits(v, 8 + n) == LowBits(v % 256, 8) + LowBits(v / 256, n)
  {
    assert Pow2(8) == 256;
    LowBitsAppend(v % 256, 8, v / 256, n);
  }

  lemma {:induction false} Pow2Add(a: nat, b: nat)
    ensures Pow2(a + b) == Pow2(a) * Pow2(b)
  {
    if a > 0 {
      Pow2Add(a - 1, b);
      assert Pow2(a + b) == 2 * (Pow2(a - 1) * Pow2(b));
    }
  }

  lemma BytePowers()
    ensures Pow2(8) == 0x100 && Pow2(16) == 0x1_0000 && Pow2(24) == 0x100_0000 && Pow2(32) == 0x1_0000_0000
  {
    assert Pow2(8) == 0x100;
    Pow2Add(8, 8);
    Pow2Add(8, 16);
    Pow2Add(16, 16);
  }

  lemma {:induction false} Pow2Monotone(a: nat, b: nat)
    requires a <= b
    ensures Pow2(a) <= Pow2(b)
  {
    if a < b { Pow2Monotone(a, b - 1); }
  }

  lemma {:induction false} ByteBitsAppend(s: seq<byte>, t: seq<byte>)
    ensures ByteBits(s + t) == ByteBits(s) + ByteBits(t)
  {
    if s == [] {
      assert s + t == t;
    } else {
      assert (s + t)[1..] == s[1..] + t;
      ByteBitsAppend(s[1..], t);
    }
  }

  lemma ByteBitsPush(s: seq<byte>, v: byte)
    ensures ByteBits(s + [v]) == ByteBits(s) + LowBits(v, 8)
  {
    ByteBitsAppend(s, [v]);
    assert ByteBits([v]) == LowBits(v, 8);
  }

  /** Two bytes, low one first, read as one 16-bit number. */
  lemma WordBits(w: seq<byte>, n: nat, b: seq<bool>)
    requires |w| == 2 && n == w[0] as nat + w[1] as nat * 256 && b == ByteBits(w)
    ensures |b| == 16 && FromLow(b) == n
  {
    assert Pow2(8) == 256 && Pow2(16) == 65536;
    assert w == [w[0]] + [w[1]] && ByteBits([w[0]]) == LowBits(w[0], 8);
    ByteBitsPush([w[0]], w[1]);
    hide *;
    LowBitsAppend(w[0], 8, w[1], 8);
    FromLowBits(n, 16);
  }

  lemma {:induction false} BytesOfByteBits(s: seq<byte>)
    ensures BitBytes(ByteBits(s)) == s
  {
    if s != [] {
      var b := ByteBits(s);
      assert b[..8] == LowBits(s[0], 8) && b[8..] == ByteBits(s[1..]);
      assert Pow2(8) == 256;
      FromLowBits(s[0], 8);
      BytesOfByteBits(s[1..]);
    }
  }

  lemma OrHalf(a: nat, b: nat)
    ensures Or(a, b) / 2 == Or(a / 2, b / 2)
    ensures Or(a, b) % 2 == if a % 2 == 1 || b % 2 == 1 then 1 else 0
  {
  }

  lemma XorHalf(a: nat, b: nat)
    ensures Xor(a, b) / 2 == Xor(a / 2, b / 2)
    ensures Xor(a, b) % 2 == if a % 2 != b % 2 then 1 else 0
  {
  }

  lemma LowBitAt(v: nat, n: nat, i: nat)
    requires i < n
    ensures LowBits(v, n)[i] == if i == 0 then v % 2 == 1 else LowBits(v / 2, n - 1)[i - 1]
  {
  }

  /** `|` and `^` bit by bit. */
  lemma {:induction false} BitwiseAt(a: nat, b: nat, n: nat, i: nat)
    requires i < n
    ensures LowBits(Or(a, b), n)[i] == (LowBits(a, n)[i] || LowBits(b, n)[i])
    ensures LowBits(Xor(a, b), n)[i] == (LowBits(a, n)[i] != LowBits(b, n)[i])
    decreases i
  {
    hide Or, Xor, LowBits;
    OrHalf(a, b);
    XorHalf(a, b);
    LowBitAt(a, n, i);
    LowBitAt(b, n, i);
    LowBitAt(Or(a, b), n, i);
    LowBitAt(Xor(a, b), n, i);
    if i > 0 { BitwiseAt(a / 2, b / 2, n - 1, i - 1); }
  }

  // ----- sequences, products and remainders -----

  lemma Regrouped<T>(a: seq<T>, b: seq<T>, c: seq<T>)
    ensures a + (b + c) == a + b + c
  {
  }

  function Abs(x: int): nat
  {
    if x < 0 then -x else x
  }

  lemma Times(x: nat, y: nat, p: nat)
    requires x <= y
    ensures x * p <= y * p && (x + 1) * p == x * p + p
  {
  }

  lemma SmallMod(x: nat, p: nat)
    requires x < p
    ensures x % p == x
  {
  }

  lemma Quotient(i: nat, p: nat)
    requires p > 0
    ensures i == i / p * p + i % p && i % p < p
  {
  }

  lemma Unique(x: nat, p: nat, q: nat, r: nat)
    requires p > 0 && r < p && x == q * p + r
    ensures x % p == r
  {
    Quotient(x, p);
    var d := x / p;
    if d < q { Times(d + 1, q, p); } else if d > q { Times(q + 1, d, p); }
  }
}
