/** `stbi_zlib_compress`: LZ77 with lazy matching over fixed Huffman codes, or stored blocks. */
module Zlib {
  import opened Bits
  import opened Inflate
  import Adler

  const HASH_SIZE: nat := 16384

  const LENGTHC: seq<nat> := [3, 4, 5, 6, 7, 8, 9, 10, 11, 13, 15, 17, 19, 23, 27, 31, 35, 43, 51, 59, 67, 83, 99, 115,
                              131, 163, 195, 227, 258, 259]
  const LENGTHEB: seq<nat> := [0, 0, 0, 0, 0, 0, 0, 0, 1, 1, 1, 1, 2, 2, 2, 2, 3, 3, 3, 3, 4, 4, 4, 4, 5, 5, 5, 5, 0]
  const DISTC: seq<nat> := [1, 2, 3, 4, 5, 7, 9, 13, 17, 25, 33, 49, 65, 97, 129, 193, 257, 385, 513, 769, 1025, 1537,
                            2049, 3073, 4097, 6145, 8193, 12289, 16385, 24577, 32768]
  const DISTEB: seq<nat> := [0, 0, 0, 0, 1, 1, 2, 2, 3, 3, 4, 4, 5, 5, 6, 6, 7, 7, 8, 8, 9, 9, 10, 10, 11, 11, 12, 12,
                             13, 13]

  /** The output buffer with its 32-bit bit buffer. */
  class BitWriter {
    var out: seq<byte>
    var bitbuf: nat
    var bitcount: nat

    ghost var written: seq<bool>  // every bit so far, the pending ones last

    ghost predicate Valid()
      reads this
    {
      bitcount < 8 && Pending()
    }

    ghost predicate Pending()
      reads this
    {
      bitbuf < Pow2(bitcount) && written == ByteBits(out) + LowBits(bitbuf, bitcount)
    }

    constructor ()
      ensures Valid() && written == [] && out == [] && bitcount == 0
    {
      out, bitbuf, bitcount, written := [], 0, 0, [];
    }

    method Flush()
      requires Pending()
      modifies this`out, this`bitbuf, this`bitcount
      ensures Valid() && old(out) <= out && bitcount == old(bitcount) % 8
    {
      hide ByteBits, LowBits, Pow2;
      while bitcount >= 8
        invariant Pending() && old(out) <= out && bitcount % 8 == old(bitcount) % 8
        decreases bitcount
      {
        FlushByte(out, bitbuf, bitcount);
        out := out + [bitbuf % 256];
        bitbuf := bitbuf / 256;
        bitcount := bitcount - 8;
      }
    }

    /** A byte pushed straight to the output while no bits are pending. */
    method Push(v: byte)
      requires Valid() && bitcount == 0
      modifies this
      ensures Valid() && bitcount == 0 && written == old(written) + LowBits(v, 8) && out == old(out) + [v]
    {
      ByteBitsPush(out, v);
      out := out + [v];
      written := written + LowBits(v, 8);
    }

    /** Or-s a field in above the pending bits; 32 bits always hold both. */
    method Add(code: nat, codebits: nat)
      requires Valid() && codebits <= 16 && code < Pow2(codebits)
      modifies this
      ensures Valid() && written == old(written) + LowBits(code, codebits) && old(out) <= out
      ensures bitcount == (old(bitcount) + codebits) % 8
    {
      hide ByteBits, LowBits, Pow2, Or, ShiftLeft;
      ShiftFits(bitbuf, bitcount, code, codebits);
      OrAbove(bitbuf, bitcount, code);
      LowBitsAppend(bitbuf, bitcount, code, codebits);
      bitbuf := Or(bitbuf, ShiftLeft(code, bitcount));
      bitcount := bitcount + codebits;
      written := written + LowBits(code, codebits);
      Flush();
    }

    method AddReversed(code: nat, codebits: nat)
      requires Valid() && codebits <= 16 && code < Pow2(codebits)
      modifies this
      ensures Valid() && written == old(written) + HighBits(code, codebits) && old(out) <= out
    {
      var r := BitReverse(code, codebits);
      Add(r, codebits);
    }

    method Symbol(n: nat)
      requires Valid() && n <= 287
      modifies this
      ensures Valid() && written == old(written) + SymbolBits(n) && old(out) <= out
    {
      assert Pow2(7) == 128 && Pow2(8) == 256 && Pow2(9) == 512;
      hide Pow2, HighBits, Valid;
      if n <= 143 {
        AddReversed(0x30 + n, 8);
      } else if n <= 255 {
        AddReversed(0x190 + n - 144, 9);
      } else if n <= 279 {
        AddReversed(n - 256, 7);
      } else {
        AddReversed(0xC0 + n - 280, 8);
      }
    }
  }

  lemma FlushByte(out: seq<byte>, bitbuf: nat, bitcount: nat)
    requires bitcount >= 8 && bitbuf < Pow2(bitcount)
    ensures bitbuf / 256 < Pow2(bitcount - 8)
    ensures ByteBits(out + [bitbuf % 256]) + LowBits(bitbuf / 256, bitcount - 8)
         == ByteBits(out) + LowBits(bitbuf, bitcount)
  {
    assert bitbuf / 256 < Pow2(bitcount - 8) by {
      Pow2Add(8, bitcount - 8);
      assert Pow2(8) == 256;
    }
    LowByteSplit(bitbuf, bitcount - 8);
    ByteBitsPush(out, bitbuf % 256);
    hide *;
    assert ByteBits(out) + LowBits(bitbuf % 256, 8) + LowBits(bitbuf / 256, bitcount - 8)
        == ByteBits(out) + (LowBits(bitbuf % 256, 8) + LowBits(bitbuf / 256, bitcount - 8));
  }

  lemma ShiftFits(b: nat, k: nat, code: nat, codebits: nat)
    requires k < 8 && codebits <= 16 && b < Pow2(k) && code < Pow2(codebits)
    ensures b + code * Pow2(k) < Pow2(k + codebits) && ShiftLeft(code, k) == code * Pow2(k)
  {
    Pow2Add(k, codebits);
    Pow2Monotone(k + codebits, 23);
    assert Pow2(23) == 0x80_0000 by { Pow2Add(16, 7); assert Pow2(16) == 65536 && Pow2(7) == 128; }
    hide Pow2;
    RowMajor(b, Pow2(k), code, Pow2(codebits));
    RowMajor(0, Pow2(k), code, Pow2(codebits));
    NoWrap(code * Pow2(k));
  }

  lemma NoWrap(x: nat)
    requires x < TWO32
    ensures x % TWO32 == x
  {
  }

  lemma RowMajor(b: nat, p: nat, c: nat, q: nat)
    requires b < p && c < q
    ensures b + c * p < p * q
  {
    assert (c + 1) * p <= q * p;
  }

  method BitReverse(value: nat, codebits: nat) returns (res: nat)
    requires value < Pow2(codebits)
    ensures res < Pow2(codebits) && LowBits(res, codebits) == HighBits(value, codebits)
  {
    res := 0;
    var code: nat, left: nat := value, codebits;
    while left > 0
      invariant left <= codebits && code < Pow2(left) && res < Pow2(codebits - left)
      invariant HighBits(code, left) + LowBits(res, codebits - left) == HighBits(value, codebits)
    {
      res := 2 * res + code % 2;
      code := code / 2;
      left := left - 1;
      assert LowBits(res, codebits - left) == [res % 2 == 1] + LowBits(res / 2, codebits - left - 1);
    }
  }

  // ----- the code tables agree with RFC 1951 -----

  /** Pow2 up to 2^13, without recursion. */
  function SmallPower(e: nat): nat
  {
    if e == 0 then 1 else if e == 1 then 2 else if e == 2 then 4 else if e == 3 then 8 else if e == 4 then 16
    else if e == 5 then 32 else if e == 6 then 64 else if e == 7 then 128 else if e == 8 then 256
    else if e == 9 then 512 else if e == 10 then 1024 else if e == 11 then 2048 else if e == 12 then 4096 else 8192
  }

  lemma SmallPowerIsPow2(e: nat)
    requires e <= 13
    ensures SmallPower(e) == Pow2(e)
  {
    assert Pow2(0) == 1 && Pow2(1) == 2 && Pow2(2) == 4 && Pow2(3) == 8 && Pow2(4) == 16 && Pow2(5) == 32 &&
           Pow2(6) == 64 && Pow2(7) == 128 && Pow2(8) == 256 && Pow2(9) == 512 && Pow2(10) == 1024 &&
           Pow2(11) == 2048 && Pow2(12) == 4096 && Pow2(13) == 8192;
  }

  lemma LengthExtraTable(c: nat)
    requires c < 29
    ensures LENGTHEB[c] == LengthExtra(c) <= 5
  {
  }

  lemma LengthStep(c: nat)
    requires c < 29
    ensures LENGTHC[c + 1] == if c == 27 then 258 else LENGTHC[c] + SmallPower(LengthExtra(c))
  {
  }

  lemma DistanceExtraTable(c: nat)
    requires c < 30
    ensures DISTEB[c] == DistanceExtra(c) <= 13
  {
  }

  lemma DistanceStep(c: nat)
    requires c < 30
    ensures DISTC[c + 1] == if c == 29 then 32768 else DISTC[c] + SmallPower(DistanceExtra(c))
  {
  }

  /** The encoder's tables are those of RFC 1951 section 3.2.5; extra bits reach up to the next row. */
  lemma {:induction false} LengthTable(c: nat)
    requires c < 29
    ensures LENGTHC[c] == LengthBase(c) && LENGTHEB[c] == LengthExtra(c) <= 5
    ensures LENGTHC[c + 1] <= LENGTHC[c] + Pow2(LENGTHEB[c])
  {
    LengthExtraTable(c);
    LengthStep(c);
    SmallPowerIsPow2(LengthExtra(c));
    if c > 0 {
      LengthTable(c - 1);
      LengthStep(c - 1);
      SmallPowerIsPow2(LengthExtra(c - 1));
    }
  }

  lemma {:induction false} DistanceTable(c: nat)
    requires c < 30
    ensures DISTC[c] == DistanceBase(c) && DISTEB[c] == DistanceExtra(c) <= 13
    ensures DISTC[c + 1] <= DISTC[c] + Pow2(DISTEB[c])
  {
    DistanceExtraTable(c);
    DistanceStep(c);
    SmallPowerIsPow2(DistanceExtra(c));
    if c > 0 {
      DistanceTable(c - 1);
      DistanceStep(c - 1);
      SmallPowerIsPow2(DistanceExtra(c - 1));
    }
  }

  // ----- what emitted bits mean to the decoder -----

  /** Inside a fixed-Huffman block, the bits `e` take the decoder from `out` to `out'`. */
  ghost predicate Means(e: seq<bool>, out: seq<byte>, out': seq<byte>)
  {
    forall rest :: FixedBlock(e + rest, out) == FixedBlock(rest, out')
  }

  lemma MeansNothing(out: seq<byte>)
    ensures Means([], out, out)
  {
    forall rest: seq<bool> ensures FixedBlock([] + rest, out) == FixedBlock(rest, out) {
      assert [] + rest == rest;
    }
  }

  lemma MeansThen(e: seq<bool>, e': seq<bool>, a: seq<byte>, b: seq<byte>, c: seq<byte>)
    requires Means(e, a, b) && Means(e', b, c)
    ensures Means(e + e', a, c)
  {
    forall rest ensures FixedBlock(e + e' + rest, a) == FixedBlock(rest, c) {
      assert e + e' + rest == e + (e' + rest);
    }
  }

  lemma LiteralMeans(v: byte, out: seq<byte>)
    ensures Means(SymbolBits(v), out, out + [v])
  {
    forall rest ensures FixedBlock(SymbolBits(v) + rest, out) == FixedBlock(rest, out + [v]) {
      SymbolRoundTrip(v, rest);
    }
  }

  /** After length code `c`, the bits `t` give the decoder the match length and distance. */
  ghost predicate GivesMatch(c: nat, t: seq<bool>, len: nat, dist: nat)
  {
    forall rest :: ReadMatch(c, t + rest) == Some((len, dist, rest))
  }

  lemma MatchMeans(c: nat, t: seq<bool>, len: nat, dist: nat, out: seq<byte>)
    requires c <= 28 && GivesMatch(c, t, len, dist) && 1 <= dist <= |out|
    ensures Means(SymbolBits(c + 257) + t, out, CopyBack(out, len, dist))
  {
    var s := SymbolBits(c + 257);
    forall rest ensures FixedBlock(s + t + rest, out) == FixedBlock(rest, CopyBack(out, len, dist)) {
      assert s + t + rest == s + (t + rest);
      SymbolRoundTrip(c + 257, t + rest);
      MatchStep(s + t + rest, out, c, t + rest, len, dist, rest);
    }
  }

  lemma MatchStep(b: seq<bool>, out: seq<byte>, c: nat, tail: seq<bool>, len: nat, dist: nat, rest: seq<bool>)
    requires ReadSymbol(b) == Some((c + 257, tail)) && ReadMatch(c, tail) == Some((len, dist, rest))
    requires 1 <= dist <= |out|
    ensures FixedBlock(b, out) == FixedBlock(rest, CopyBack(out, len, dist))
  {
  }

  lemma FieldsGiveMatch(c: nat, l: seq<bool>, h: seq<bool>, m: seq<bool>, d: nat, len: nat, dist: nat)
    requires c <= 28 && |l| == LengthExtra(c) && |h| == 5 && FromHigh(h) == d <= 29 && |m| == DistanceExtra(d)
    requires len == LengthBase(c) + FromLow(l) && dist == DistanceBase(d) + FromLow(m)
    ensures GivesMatch(c, l + h + m, len, dist)
  {
    forall rest ensures ReadMatch(c, l + h + m + rest) == Some((len, dist, rest)) {
      Regrouped(l + h, m, rest);
      Regrouped(l, h, m + rest);
      FieldsRead(c, l, h, m, rest, d, len, dist);
    }
  }

  lemma FieldsRead(c: nat, l: seq<bool>, h: seq<bool>, m: seq<bool>, rest: seq<bool>, d: nat, len: nat, dist: nat)
    requires c <= 28 && |l| == LengthExtra(c) && |h| == 5 && FromHigh(h) == d <= 29 && |m| == DistanceExtra(d)
    requires len == LengthBase(c) + FromLow(l) && dist == DistanceBase(d) + FromLow(m)
    ensures ReadMatch(c, l + (h + (m + rest))) == Some((len, dist, rest))
  {
    var b2 := m + rest;
    var b1 := h + b2;
    ReadLowRoundTrip(l, b1);
    ReadHighRoundTrip(h, b2);
    ReadLowRoundTrip(m, rest);
    hide *;
    MatchOfFields(c, l + b1, FromLow(l), b1, d, b2, FromLow(m), rest, len, dist);
  }

  lemma MatchOfFields(c: nat, b: seq<bool>, x: nat, b1: seq<bool>, d: nat, b2: seq<bool>, y: nat, b3: seq<bool>,
                      len: nat, dist: nat)
    requires c <= 28 && ReadLow(b, LengthExtra(c)) == Some((x, b1)) && len == LengthBase(c) + x
    requires d <= 29 && ReadHigh(b1, 5) == Some((d, b2))
    requires ReadLow(b2, DistanceExtra(d)) == Some((y, b3)) && dist == DistanceBase(d) + y
    ensures ReadMatch(c, b) == Some((len, dist, b3))
  {
    hide FromLow, FromHigh, LengthBase, DistanceBase, ReadLow, ReadHigh, LengthExtra, DistanceExtra;
  }

  /** The `n` bytes at `a` are those at `b`. */
  ghost predicate Agree(data: seq<byte>, a: nat, b: nat, n: nat)
  {
    a + n <= |data| && b + n <= |data| && data[a..a + n] == data[b..b + n]
  }

  lemma AgreeTail(data: seq<byte>, a: nat, b: nat, n: nat)
    requires n > 0 && Agree(data, a, b, n)
    ensures data[a] == data[b] && Agree(data, a + 1, b + 1, n - 1)
  {
    assert data[a..a + n][0] == data[b..b + n][0];
    assert data[a..a + n][1..] == data[a + 1..a + n] && data[b..b + n][1..] == data[b + 1..b + n];
  }

  /** A match found in the data copies the data. */
  lemma {:induction false} CopyRebuilds(data: seq<byte>, from: nat, i: nat, len: nat)
    requires from < i && Agree(data, from, i, len)
    ensures CopyBack(data[..i], len, i - from) == data[..i + len]
    decreases len
  {
    if len > 0 {
      AgreeTail(data, from, i, len);
      assert data[..i] + [data[from]] == data[..i + 1];
      CopyRebuilds(data, from + 1, i + 1, len - 1);
    }
  }

  // ----- the compressor -----

  /** The length of the match, up to 258 bytes. */
  method CountMatch(data: seq<byte>, a: nat, b: nat, limit: nat) returns (n: nat)
    requires a < b && b + limit <= |data|
    ensures n <= limit && n <= 258 && Agree(data, a, b, n)
    ensures n < limit && n < 258 ==> data[a + n] != data[b + n]
  {
    n := 0;
    while n < limit && n < 258
      invariant n <= limit && n <= 258 && Agree(data, a, b, n)
    {
      if data[a + n] != data[b + n] { break; }
      assert data[a..a + n + 1] == data[a..a + n] + [data[a + n]];
      assert data[b..b + n + 1] == data[b..b + n] + [data[b + n]];
      n := n + 1;
    }
  }

  lemma {:induction false} AgreeUpTo(data: seq<byte>, a: nat, b: nat, n: nat, m: nat)
    requires Agree(data, a, b, m) && n < m
    ensures data[a + n] == data[b + n]
  {
    assert data[a..a + m][n] == data[b..b + m][n];
  }

  /** Within the 32K window, the next `len` bytes at `i` already stand at `from`. */
  ghost predicate IsMatch(data: seq<byte>, i: nat, from: int, len: nat)
  {
    0 <= from < i && i - from <= 32767 && 3 <= len <= 258 && i + len <= |data| && Agree(data, from, i, len)
  }

  function ShiftLeft(x: nat, n: nat): nat
  {
    x * Pow2(n) % TWO32
  }

  function Hash(data: seq<byte>, i: nat): (h: nat)
    requires i + 2 < |data|
    ensures h < HASH_SIZE
  {
    var h: nat := data[i] as nat + data[i + 1] as nat * 0x100 + data[i + 2] as nat * 0x1_0000;
    var h := Xor(h, ShiftLeft(h, 3));
    var h := (h + h / Pow2(5)) % TWO32;
    var h := Xor(h, ShiftLeft(h, 4));
    var h := (h + h / Pow2(17)) % TWO32;
    var h := Xor(h, ShiftLeft(h, 25));
    var h := (h + h / Pow2(6)) % TWO32;
    h % HASH_SIZE
  }

  /** The last of the longest matches at the listed places; -1 when none reaches 3 bytes. */
  method LongestMatch(data: seq<byte>, i: nat, places: seq<nat>) returns (best: nat, from: int)
    requires i + 3 < |data| && forall p | p in places :: p < i
    ensures if from == -1 then best == 3 else from in places && IsMatch(data, i, from, best)
    ensures forall p, n: nat | p in places && IsMatch(data, i, p, n) :: from != -1 && n <= best
  {
    best, from := 3, -1;
    for j := 0 to |places|
      invariant if from == -1 then best == 3 else from in places && IsMatch(data, i, from, best)
      invariant forall p, n: nat | p in places[..j] && IsMatch(data, i, p, n) :: from != -1 && n <= best
    {
      assert places[j] in places && places[..j + 1] == places[..j] + [places[j]];
      if places[j] > i - 32768 {
        var d := CountMatch(data, places[j], i, |data| - i);
        forall n: nat | IsMatch(data, i, places[j], n) ensures n <= d {
          if n > d { AgreeUpTo(data, places[j], i, d, n); }
        }
        if d >= best { best, from := d, places[j]; }
      }
    }
    assert places[..|places|] == places;
  }

  /** One of the places has a match at `at` longer than `n`. */
  ghost predicate Beaten(data: seq<byte>, at: nat, n: nat, places: seq<nat>)
  {
    exists p, m: nat :: p in places && m > n && IsMatch(data, at, p, m)
  }

  /** Lazy matching: whether a match longer than `best` starts at the byte after. */
  method NextIsLonger(data: seq<byte>, at: nat, best: nat, places: seq<nat>) returns (longer: bool)
    requires at + 2 < |data| && best >= 3 && forall p | p in places :: p < at
    ensures longer <==> Beaten(data, at, best, places)
  {
    longer := false;
    for j := 0 to |places|
      invariant !longer
      invariant forall p, n: nat | p in places[..j] && IsMatch(data, at, p, n) :: n <= best
    {
      assert places[j] in places && places[..j + 1] == places[..j] + [places[j]];
      if places[j] > at - 32768 {
        var e := CountMatch(data, places[j], at, |data| - at);
        if e > best {
          assert IsMatch(data, at, places[j], e);
          return true;
        }
        forall n: nat | IsMatch(data, at, places[j], n) ensures n <= best {
          if n > e { AgreeUpTo(data, places[j], at, e, n); }
        }
      }
    }
    assert places[..|places|] == places;
  }

  method EmitLiteral(w: BitWriter, data: seq<byte>, i: nat) returns (ghost e: seq<bool>)
    requires w.Valid() && i < |data|
    modifies w
    ensures w.Valid() && w.written == old(w.written) + e && old(w.out) <= w.out
    ensures Means(e, data[..i], data[..i + 1])
  {
    hide BitWriter.Valid, SymbolBits;
    w.Symbol(data[i]);
    e := SymbolBits(data[i]);
    LiteralMeans(data[i], data[..i]);
    assert data[..i] + [data[i]] == data[..i + 1];
  }

  method EmitMatch(w: BitWriter, len: nat, dist: nat, ghost out: seq<byte>) returns (ghost e: seq<bool>)
    requires w.Valid() && 3 <= len <= 258 && 1 <= dist <= 32767 && dist <= |out|
    modifies w
    ensures w.Valid() && w.written == old(w.written) + e && old(w.out) <= w.out
    ensures Means(e, out, CopyBack(out, len, dist))
  {
    hide *;
    var c := LengthCode(len);
    w.Symbol(c + 257);
    ghost var t := EmitExtras(w, c, len, dist);
    e := SymbolBits(c + 257) + t;
    MatchMeans(c, t, len, dist, out);
  }

  method EmitExtras(w: BitWriter, c: nat, len: nat, dist: nat) returns (ghost t: seq<bool>)
    requires w.Valid() && c <= 28 && LENGTHC[c] <= len < LENGTHC[c + 1] && 1 <= dist <= 32767
    modifies w
    ensures w.Valid() && w.written == old(w.written) + t && old(w.out) <= w.out
    ensures GivesMatch(c, t, len, dist)
  {
    hide BitWriter.Valid, FromLow, FromHigh, LengthBase, DistanceBase, HighBits, Pow2;
    LengthTable(c);
    ghost var l := EmitField(w, len - LENGTHC[c], LENGTHEB[c]);
    var d := DistanceCode(dist);
    DistanceTable(d);
    FiveBits(d);
    w.AddReversed(d, 5);
    ghost var h := HighBits(d, 5);
    ghost var m := EmitField(w, dist - DISTC[d], DISTEB[d]);
    t := l + h + m;
    FieldsGiveMatch(c, l, h, m, d, len, dist);
  }

  lemma FiveBits(d: nat)
    requires d < 32
    ensures d < Pow2(5) && FromHigh(HighBits(d, 5)) == d
  {
    assert Pow2(5) == 32;
    FromHighBits(d, 5);
  }

  method EmitField(w: BitWriter, v: nat, width: nat) returns (ghost t: seq<bool>)
    requires w.Valid() && width <= 16 && v < Pow2(width)
    modifies w
    ensures w.Valid() && w.written == old(w.written) + t && old(w.out) <= w.out
    ensures |t| == width && FromLow(t) == v
  {
    if width != 0 { w.Add(v, width); }
    t := LowBits(v, width);
    FromLowBits(v, width);
  }

  method LengthCode(len: nat) returns (c: nat)
    requires 3 <= len <= 258
    ensures c <= 28 && LENGTHC[c] <= len < LENGTHC[c + 1]
  {
    c := 0;
    while len > LENGTHC[c + 1] - 1
      invariant c <= 28 && LENGTHC[c] <= len
    {
      assert LENGTHC[29] == 259;
      c := c + 1;
    }
  }

  method DistanceCode(dist: nat) returns (d: nat)
    requires 1 <= dist <= 32767
    ensures d <= 29 && DISTC[d] <= dist < DISTC[d + 1]
  {
    d := 0;
    while dist > DISTC[d + 1] - 1
      invariant d <= 29 && DISTC[d] <= dist
    {
      assert DISTC[30] == 32768;
      d := d + 1;
    }
  }

  /** Whether every place in every chain of the hash table lies before `i`. */
  ghost predicate PlacesBefore(table: seq<seq<nat>>, i: nat)
  {
    forall h, p | 0 <= h < |table| && p in table[h] :: p < i
  }

  /** Appends place `i` to chain `h`, first dropping the older half of a full chain. */
  function Enter(table: seq<seq<nat>>, h: nat, i: nat, quality: nat): (t: seq<seq<nat>>)
    requires h < |table| && quality > 0
    ensures |t| == |table| && forall k | 0 <= k < |table| && k != h :: t[k] == table[k]
    ensures i in t[h] && forall p | p in t[h] :: p == i || p in table[h]
    ensures |table[h]| <= 2 * quality ==> |t[h]| <= 2 * quality
  {
    var chain := if |table[h]| == 2 * quality then table[h][quality..] else table[h];
    table[h := chain + [i]]
  }

  lemma EnterKeepsOrder(table: seq<seq<nat>>, h: nat, i: nat, quality: nat)
    requires h < |table| && quality > 0 && PlacesBefore(table, i)
    ensures PlacesBefore(Enter(table, h, i, quality), i + 1)
  {
    var t := Enter(table, h, i, quality);
    forall k, p | 0 <= k < |t| && p in t[k] ensures p < i + 1 {
      assert p == i || p in table[k];
    }
  }

  /** The match chosen at `i`, after lazy matching; -1 for a literal. Enters `i` into the table. */
  method ChooseMatch(data: seq<byte>, i: nat, table: array<seq<nat>>, quality: nat) returns (best: nat, from: int)
    requires i + 3 < |data| && table.Length == HASH_SIZE && PlacesBefore(table[..], i) && quality >= 5
    modifies table
    ensures table[..] == Enter(old(table[..]), Hash(data, i), i, quality)
    ensures PlacesBefore(table[..], i + 1)
    ensures from == -1 || IsMatch(data, i, from, best)
    ensures var here, next := old(table[Hash(data, i)]), table[Hash(data, i + 1)];
      if from == -1 then forall p, n: nat | p in here && IsMatch(data, i, p, n) :: Beaten(data, i + 1, n, next)
      else from in here && !Beaten(data, i + 1, best, next) &&
           forall p, n: nat | p in here && IsMatch(data, i, p, n) :: n <= best
  {
    hide Hash, IsMatch;
    var h := Hash(data, i);
    assert table[h] == table[..][h];
    best, from := LongestMatch(data, i, table[h]);
    EnterKeepsOrder(table[..], h, i, quality);
    if |table[h]| == 2 * quality {
      table[h] := table[h][quality..];
    }
    table[h] := table[h] + [i];
    assert table[..] == Enter(old(table[..]), h, i, quality);
    if from != -1 {
      var next := Hash(data, i + 1);
      assert table[next] == table[..][next];
      var longer := NextIsLonger(data, i + 1, best, table[next]);
      if longer { from := -1; }
    }
  }

  /** One turn of the main loop: a match or a literal, taking the decoder from `i` to `next`. */
  method EmitToken(w: BitWriter, data: seq<byte>, i: nat, table: array<seq<nat>>, quality: nat)
    returns (next: nat, ghost e: seq<bool>)
    requires w.Valid() && quality >= 5
    requires i + 3 < |data| && table.Length == HASH_SIZE && PlacesBefore(table[..], i)
    modifies w, table
    ensures PlacesBefore(table[..], i + 1)
    ensures w.Valid() && w.written == old(w.written) + e && old(w.out) <= w.out
    ensures i < next <= |data| && Means(e, data[..i], data[..next])
  {
    hide BitWriter.Valid, Means, CopyBack, Agree, Enter, Hash;
    var best, from := ChooseMatch(data, i, table, quality);
    if from != -1 {
      e := EmitMatch(w, best, i - from, data[..i]);
      CopyRebuilds(data, from, i, best);
      next := i + best;
    } else {
      e := EmitLiteral(w, data, i);
      next := i + 1;
    }
  }

  lemma PlacesStayBefore(table: seq<seq<nat>>, i: nat, next: nat)
    requires PlacesBefore(table, i) && i <= next
    ensures PlacesBefore(table, next)
  {
  }

  /** The main loop, up to the last three bytes or past them. */
  method EmitTokens(w: BitWriter, data: seq<byte>, table: array<seq<nat>>, quality: nat)
    returns (i: nat, ghost e: seq<bool>)
    requires w.Valid() && quality >= 5 && table.Length == HASH_SIZE && PlacesBefore(table[..], 0)
    modifies w, table
    ensures w.Valid() && w.written == old(w.written) + e && old(w.out) <= w.out
    ensures i <= |data| && Means(e, [], data[..i])
  {
    hide *;
    e := [];
    MeansNothing([]);
    assert data[..0] == [];
    i := 0;
    while i < |data| - 3
      invariant i <= |data| && PlacesBefore(table[..], i)
      invariant w.Valid() && w.written == old(w.written) + e && old(w.out) <= w.out
      invariant Means(e, [], data[..i])
    {
      ghost var t;
      var next;
      next, t := EmitToken(w, data, i, table, quality);
      MeansThen(e, t, [], data[..i], data[..next]);
      PlacesStayBefore(table[..], i + 1, next);
      e, i := e + t, next;
    }
  }

  /** The final bytes, each as a literal. */
  method EmitTail(w: BitWriter, data: seq<byte>, start: nat, ghost e0: seq<bool>) returns (ghost e: seq<bool>)
    requires w.Valid() && start <= |data| && Means(e0, [], data[..start])
    modifies w
    ensures w.Valid() && w.written == old(w.written) + e && old(w.out) <= w.out
    ensures Means(e0 + e, [], data)
  {
    hide BitWriter.Valid, Means;
    e := [];
    assert e0 + e == e0;
    var i := start;
    while i < |data|
      invariant i <= |data|
      invariant w.Valid() && w.written == old(w.written) + e && old(w.out) <= w.out
      invariant Means(e0 + e, [], data[..i])
    {
      ghost var t := EmitLiteral(w, data, i);
      MeansThen(e0 + e, t, [], data[..i], data[..i + 1]);
      assert e0 + e + t == e0 + (e + t);
      e, i := e + t, i + 1;
    }
    assert data[..i] == data;
  }

  /** Followed by any four bytes, `body` inflates to `data` and leaves just those bytes. */
  ghost predicate Inflates(body: seq<byte>, data: seq<byte>)
  {
    forall t: seq<byte> | |t| == 4 :: InflatesBefore(body, data, t)
  }

  ghost predicate InflatesBefore(body: seq<byte>, data: seq<byte>, t: seq<byte>)
  {
    var r := Blocks(ByteBits(body + t), []);
    r.Some? && r.value.0 == data && var rest := r.value.1; rest[|rest| % 8..] == ByteBits(t)
  }

  lemma BlockDecodes(e: seq<bool>, data: seq<byte>, rest: seq<bool>)
    requires Means(e, [], data)
    ensures Blocks([true, true, false] + e + SymbolBits(256) + rest, []) == Some((data, rest))
  {
    hide SymbolBits;
    var b := [true, true, false] + e + SymbolBits(256) + rest;
    assert b[3..] == e + (SymbolBits(256) + rest);
    assert b[1..3] == [true, false] && FromLow([true, false]) == 1;
    SymbolRoundTrip(256, rest);
    assert FixedBlock(SymbolBits(256) + rest, data) == Some((data, rest));
  }

  lemma FixedInflates(body: seq<byte>, e: seq<bool>, pad: seq<bool>, data: seq<byte>)
    requires Means(e, [], data) && |pad| < 8
    requires ByteBits(body) == [true, true, false] + e + SymbolBits(256) + pad
    ensures Inflates(body, data)
  {
    hide ByteBits, Means, SymbolBits, Blocks, InflatesBefore;
    forall t: seq<byte> | |t| == 4 ensures InflatesBefore(body, data, t) {
      BlockThen(body, e, pad, data, t);
    }
  }

  lemma BlockThen(body: seq<byte>, e: seq<bool>, pad: seq<bool>, data: seq<byte>, t: seq<byte>)
    requires Means(e, [], data) && |pad| < 8 && |t| == 4
    requires ByteBits(body) == [true, true, false] + e + SymbolBits(256) + pad
    ensures InflatesBefore(body, data, t)
  {
    hide *;
    ByteBitsAppend(body, t);
    var b, end := [true, true, false] + e + SymbolBits(256), pad + ByteBits(t);
    assert b + pad + ByteBits(t) == b + end;
    BlockDecodes(e, data, end);
    PadDropped(body, data, t, pad);
  }

  lemma PadDropped(body: seq<byte>, data: seq<byte>, t: seq<byte>, pad: seq<bool>)
    requires |t| == 4 && |pad| < 8 && Blocks(ByteBits(body + t), []) == Some((data, pad + ByteBits(t)))
    ensures InflatesBefore(body, data, t)
  {
    hide Blocks;
    var rest := pad + ByteBits(t);
    assert |rest| % 8 == |pad|;
    assert rest[|pad|..] == ByteBits(t);
  }

  /** A zlib header and the right checksum around a stream that inflates to `data`. */
  lemma WrapDecodes(body: seq<byte>, data: seq<byte>)
    requires Inflates(body, data)
    ensures Decode([0x78, 0x5E] + body + Adler.Trailer(data)) == Some(data)
  {
    hide Blocks, ByteBits, Adler.Sums;
    var t := Adler.Trailer(data);
    assert InflatesBefore(body, data, t);
    var z := [0x78, 0x5E] + body + t;
    assert z[2..] == body + t;
  }

  /** The block's bits: header, tokens, end of block, zero bits up to a byte boundary. */
  method EmitBlock(w: BitWriter, data: seq<byte>, quality: nat) returns (ghost e: seq<bool>, ghost pad: seq<bool>)
    requires w.Valid() && w.bitcount == 0 && quality >= 5
    modifies w
    ensures w.Valid() && w.bitcount == 0 && old(w.out) <= w.out && |pad| < 8 && Means(e, [], data)
    ensures w.written == old(w.written) + ([true, true, false] + e + SymbolBits(256) + pad)
  {
    var table := new seq<nat>[HASH_SIZE](_ => []);
    assert PlacesBefore(table[..], 0);
    hide *;
    EmitHeader(w);
    var i;
    ghost var e0;
    i, e0 := EmitTokens(w, data, table, quality);
    ghost var e1 := EmitTail(w, data, i, e0);
    e := e0 + e1;
    w.Symbol(256);
    pad := PadToByte(w);
    JoinBlock(old(w.written), [true, true, false], e0, e1, SymbolBits(256), pad);
  }

  lemma JoinBlock(a: seq<bool>, b: seq<bool>, c: seq<bool>, d: seq<bool>, e: seq<bool>, f: seq<bool>)
    ensures a + b + c + d + e + f == a + (b + (c + d) + e + f)
  {
    assert b + (c + d) + e + f == b + c + d + e + f;
    Regrouped(a + (b + c + d), e, f);
    Regrouped(a, b + c + d, e + f);
  }

  method EmitHeader(w: BitWriter)
    requires w.Valid()
    modifies w
    ensures w.Valid() && w.written == old(w.written) + [true, true, false] && old(w.out) <= w.out
  {
    w.Add(1, 1);
    w.Add(1, 2);
    assert LowBits(1, 1) == [true] && LowBits(1, 2) == [true, false];
  }

  method PadToByte(w: BitWriter) returns (ghost pad: seq<bool>)
    requires w.Valid()
    modifies w
    ensures w.Valid() && w.bitcount == 0 && w.written == old(w.written) + pad && |pad| < 8 && old(w.out) <= w.out
  {
    pad := [];
    while w.bitcount != 0
      invariant w.Valid() && w.written == old(w.written) + pad && old(w.out) <= w.out
      invariant w.bitcount == 0 || |pad| < w.bitcount
      invariant |pad| < 8
      decreases if w.bitcount == 0 then 0 else 8 - w.bitcount
    {
      w.Add(0, 1);
      pad := pad + LowBits(0, 1);
    }
  }

  /** Header bytes, then one final fixed-Huffman block padded with zero bits. */
  method CompressFixed(data: seq<byte>, quality: nat) returns (out: seq<byte>)
    requires quality >= 5
    ensures |out| > 2 && out[..2] == [0x78, 0x5E] && Inflates(out[2..], data)
  {
    var w := new BitWriter();
    hide *;
    w.Push(0x78);
    w.Push(0x5E);
    ghost var e, pad;
    e, pad := EmitBlock(w, data, quality);
    out := w.out;
    assert out[..2] == [0x78, 0x5E];
    AfterHeader(w, [true, true, false] + e + SymbolBits(256) + pad);
    FixedInflates(out[2..], e, pad, data);
  }

  lemma AfterHeader(w: BitWriter, block: seq<bool>)
    requires w.Valid() && w.bitcount == 0 && |w.out| >= 2 &&
        w.written == [] + LowBits(0x78, 8) + LowBits(0x5E, 8) + block
    ensures ByteBits(w.out[2..]) == block && (block != [] ==> |w.out| > 2)
  {
    var out := w.out;
    ByteBitsAppend(out[..2], out[2..]);
    assert out == out[..2] + out[2..];
    assert w.written == ByteBits(out);
    assert ByteBits(out)[16..] == ByteBits(out[2..]);
    assert w.written[16..] == block;
  }

  // ----- stored blocks -----

  /** One stored block: final bit and type, LEN, its complement NLEN, the bytes. */
  function StoredHeader(len: nat, final: bool): (r: seq<byte>)
    requires len <= 32767
    ensures |r| == 5
  {
    [if final then 1 else 0] + [len % 256, len / 256] + [(65535 - len) % 256, (65535 - len) / 256]
  }

  /** Stored blocks of up to 32767 bytes, the last one final. */
  function Stored(data: seq<byte>): (r: seq<byte>)
    ensures |r| == |data| + (|data| + 32766) / 32767 * 5
  {
    if data == [] then [] else
      var n := if |data| > 32767 then 32767 else |data|;
      StoredHeader(n, n == |data|) + data[..n] + Stored(data[n..])
  }

  lemma StoredBlockRead(v: byte, w1: seq<byte>, w2: seq<byte>, chunk: seq<byte>, rest: seq<byte>, out: seq<byte>,
                        final: bool, b: seq<bool>)
    requires |w1| == |w2| == 2 && w1[0] as nat + 256 * (w1[1] as nat) == |chunk| <= 32767
    requires w2[0] as nat + 256 * (w2[1] as nat) == 65535 - |chunk| && v == if final then 1 else 0
    requires b == ByteBits([v] + w1 + w2 + chunk + rest)
    ensures |b| >= 3 && b[0] == final && FromLow(b[1..3]) == 0
    ensures StoredBlock(b[3..], out) == Some((out + chunk, ByteBits(rest)))
  {
    hide *;
    var f, b1, b2, c, r := ByteBits([v]), ByteBits(w1), ByteBits(w2), ByteBits(chunk), ByteBits(rest);
    FiveParts([v], w1, w2, chunk, rest);
    FinalBits(v, final, f);
    WordBits(w1, |chunk|, b1);
    WordBits(w2, 65535 - |chunk|, b2);
    HeaderSlices(f, b1, b2, c, r, b);
    StoredBody(b[3..], b[8..], chunk, rest, out);
  }

  lemma FiveParts(a: seq<byte>, b: seq<byte>, c: seq<byte>, d: seq<byte>, e: seq<byte>)
    ensures ByteBits(a + b + c + d + e) == ByteBits(a) + ByteBits(b) + ByteBits(c) + ByteBits(d) + ByteBits(e)
  {
    hide *;
    ByteBitsAppend(a + b + c + d, e);
    ByteBitsAppend(a + b + c, d);
    ByteBitsAppend(a + b, c);
    ByteBitsAppend(a, b);
  }

  lemma HeaderSlices(f: seq<bool>, b1: seq<bool>, b2: seq<bool>, c: seq<bool>, r: seq<bool>, b: seq<bool>)
    requires |f| == 8 && |b1| == 16 && |b2| == 16 && (|c| + |r|) % 8 == 0 && b == f + b1 + b2 + c + r
    ensures b[0] == f[0] && b[1..3] == f[1..3] && |b[3..]| % 8 == 5 && b[3..][5..] == b[8..]
    ensures b[8..][..16] == b1 && b[8..][16..32] == b2 && b[8..][32..] == c + r
  {
    assert |b| % 8 == 0;
  }

  lemma FinalBits(v: byte, final: bool, f: seq<bool>)
    requires (v == if final then 1 else 0) && f == ByteBits([v])
    ensures |f| == 8 && f[0] == final && FromLow(f[1..3]) == 0
  {
    assert f == LowBits(v, 8) + [] == LowBits(v, 8);
    TwoFalse(v, f);
    assert FromLow([false, false]) == 0;
  }

  lemma TwoFalse(v: byte, f: seq<bool>)
    requires v <= 1 && f == LowBits(v, 8)
    ensures f[0] == (v == 1) && f[1..3] == [false, false]
  {
    assert f[1] == LowBits(0, 7)[0] && f[2] == LowBits(0, 7)[1] == LowBits(0, 6)[0];
  }

  lemma StoredBody(b: seq<bool>, a: seq<bool>, chunk: seq<byte>, rest: seq<byte>, out: seq<byte>)
    requires b[|b| % 8..] == a && |a| >= 32 && FromLow(a[..16]) == |chunk| && FromLow(a[16..32]) == 65535 - |chunk|
    requires |chunk| <= 32767 && a[32..] == ByteBits(chunk) + ByteBits(rest)
    ensures StoredBlock(b, out) == Some((out + chunk, ByteBits(rest)))
  {
    hide FromLow, BitBytes, ByteBits;
    var n := 8 * |chunk|;
    assert a[32..][..n] == ByteBits(chunk) && a[32..][n..] == ByteBits(rest);
    assert a[32..32 + n] == a[32..][..n] && a[32 + n..] == a[32..][n..];
    BytesOfByteBits(chunk);
  }

  lemma StoredChunk(n: nat, final: bool, chunk: seq<byte>, rest: seq<byte>, out: seq<byte>, b: seq<bool>)
    requires n == |chunk| <= 32767 && b == ByteBits(StoredHeader(n, final) + chunk + rest)
    ensures |b| >= 3 && b[0] == final && FromLow(b[1..3]) == 0
    ensures StoredBlock(b[3..], out) == Some((out + chunk, ByteBits(rest)))
  {
    hide ByteBits, FromLow, StoredBlock;
    var v: byte, w1: seq<byte> := if final then 1 else 0, [n % 256, n / 256];
    var w2: seq<byte> := [(65535 - n) % 256, (65535 - n) / 256];
    StoredBlockRead(v, w1, w2, chunk, rest, out, final, b);
  }

  lemma StoredParts(data: seq<byte>, t: seq<byte>) returns (n: nat)
    requires data != []
    ensures 1 <= n <= |data| && n <= 32767
    ensures Stored(data) + t == StoredHeader(n, n == |data|) + data[..n] + (Stored(data[n..]) + t)
    ensures n == |data| ==> Stored(data[n..]) + t == t
  {
    hide StoredHeader;
    n := if |data| > 32767 then 32767 else |data|;
    var h, s := StoredHeader(n, n == |data|), Stored(data[n..]);
    assert Stored(data) == h + data[..n] + s && (n == |data| ==> s == []);
    hide Stored;
    assert h + data[..n] + s + t == h + data[..n] + (s + t);
  }

  lemma {:induction false} StoredDecodes(data: seq<byte>, out: seq<byte>, t: seq<byte>, b: seq<bool>)
    requires data != [] && b == ByteBits(Stored(data) + t)
    ensures Blocks(b, out) == Some((out + data, ByteBits(t)))
  {
    hide ByteBits, StoredBlock, FromLow, StoredHeader, Stored;
    var n := StoredParts(data, t);
    var s := Stored(data[n..]) + t;
    StoredChunk(n, n == |data|, data[..n], s, out, b);
    if n == |data| {
      assert data[..n] == data;
    } else {
      StoredDecodes(data[n..], out + data[..n], t, ByteBits(s));
      assert out + data[..n] + data[n..] == out + data;
    }
  }

  lemma StoredInflates(data: seq<byte>)
    requires data != []
    ensures Inflates(Stored(data), data)
  {
    hide Stored, Blocks, ByteBits;
    forall t: seq<byte> | |t| == 4 ensures InflatesBefore(Stored(data), data, t) {
      StoredDecodes(data, [], t, ByteBits(Stored(data) + t));
      assert [] + data == data && [] + ByteBits(t) == ByteBits(t);
      PadDropped(Stored(data), data, t, []);
    }
  }

  /** The fallback: stored blocks pushed one by one after the two header bytes. */
  method StoreBlocks(data: seq<byte>, header: seq<byte>) returns (out: seq<byte>)
    ensures out == header + Stored(data)
  {
    out := header;
    var j := 0;
    while j < |data|
      invariant j <= |data| && out + Stored(data[j..]) == header + Stored(data)
    {
      var blocklen := |data| - j;
      if blocklen > 32767 { blocklen := 32767; }
      ghost var before := out;
      out := PushHeader(out, blocklen, |data| - j == blocklen);
      out := out + data[j..j + blocklen];
      StoredStep(data, j, blocklen, before, out);
      j := j + blocklen;
    }
  }

  method PushHeader(out: seq<byte>, blocklen: nat, final: bool) returns (r: seq<byte>)
    requires blocklen <= 32767
    ensures r == out + StoredHeader(blocklen, final)
  {
    r := out + [if final then 1 else 0];
    r := r + [blocklen % 256];
    r := r + [blocklen / 256 % 256];
    r := r + [(65535 - blocklen) % 256];
    r := r + [(65535 - blocklen) / 256 % 256];
  }

  lemma StoredStep(data: seq<byte>, j: nat, n: nat, before: seq<byte>, out: seq<byte>)
    requires j < |data| && n == if |data| - j > 32767 then 32767 else |data| - j
    requires out == before + StoredHeader(n, |data| - j == n) + data[j..j + n]
    ensures out + Stored(data[j + n..]) == before + Stored(data[j..])
  {
    var d, h := data[j..], StoredHeader(n, |data| - j == n);
    assert d[..n] == data[j..j + n] && d[n..] == data[j + n..];
    var rest := Stored(d[n..]);
    assert Stored(d) == h + d[..n] + rest;
    hide *;
    assert before + h + d[..n] + rest == before + (h + d[..n] + rest);
  }

  /** With no input the fallback writes no block at all, so there is nothing a decoder could accept. */
  lemma EmptyFails()
    ensures Decode([0x78, 0x5E] + Adler.Trailer([])) == None
  {
    var z: seq<byte> := [0x78, 0x5E, 0, 0, 0, 1];
    assert [0x78, 0x5E] + Adler.Trailer([]) == z && z[2..] == [0, 0, 0, 1];
    var b := ByteBits(z[2..]);
    FinalBits(0, false, ByteBits([0]));
    ByteBitsAppend([0], [0, 0, 1]);
    assert [0] + [0, 0, 1] == z[2..];
    assert b[0] == false && b[1..3] == ByteBits([0])[1..3];
    hide ByteBits, FromLow;
    assert StoredBlock(b[3..], []) == None;
  }

  /** A zlib stream for the data: compressed, or stored when compression made it longer. */
  method Compress(data: seq<byte>, quality: int) returns (out: seq<byte>)
    ensures Decode(out) == if data == [] then None else Some(data)
    ensures |out| <= |data| + 6 + (|data| + 32766) / 32767 * 5
  {
    hide Decode, Inflates, Adler.Sums;
    var q := if quality < 5 then 5 else quality;
    out := CompressFixed(data, q);
    if |out| > |data| + 2 + (|data| + 32766) / 32767 * 5 {
      out := StoreBlocks(data, out[..2]);
    }
    var s1, s2 := Adler.Checksum(data);
    FinishDecodes(out, data);
    out := out + [s2 / 256, s2 % 256, s1 / 256, s1 % 256];
  }

  lemma FinishDecodes(out: seq<byte>, data: seq<byte>)
    requires |out| >= 2 && out[..2] == [0x78, 0x5E]
    requires out == [0x78, 0x5E] + Stored(data) || (data != [] && Inflates(out[2..], data))
    ensures Decode(out + Adler.Trailer(data)) == if data == [] then None else Some(data)
  {
    hide Decode, Inflates, Blocks, ByteBits, Adler.Trailer;
    if data == [] {
      assert out == [0x78, 0x5E];
      EmptyFails();
    } else {
      if out == [0x78, 0x5E] + Stored(data) {
        StoredInflates(data);
        assert out[2..] == Stored(data);
      }
      WrapDecodes(out[2..], data);
      assert out == [0x78, 0x5E] + out[2..];
    }
  }
}
