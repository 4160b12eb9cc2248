/** The entropy coder of the JPEG writer: bit buffer, byte stuffing, DC and AC coding. */
module JpegEncoder {
  import opened Bits
  import opened JpegDecoder

  // ----- byte stuffing -----

  /** Whether every 0xFF is followed by a stuffed zero byte. */
  predicate Stuffed(s: seq<byte>)
  {
    if s == [] then true
    else if s[0] != 0xFF then Stuffed(s[1..])
    else |s| >= 2 && s[1] == 0 && Stuffed(s[2..])
  }

  lemma {:induction false} StuffedMeans(s: seq<byte>, i: nat)
    requires Stuffed(s) && i < |s| && s[i] == 0xFF
    ensures i + 1 < |s| && s[i + 1] == 0
  {
    if s[0] != 0xFF {
      StuffedMeans(s[1..], i - 1);
    } else if i > 0 {
      StuffedMeans(s[2..], i - 2);
    }
  }

  lemma {:induction false} UnstuffAppend(s: seq<byte>, t: seq<byte>)
    requires Stuffed(s)
    ensures Unstuff(s + t) == Unstuff(s) + Unstuff(t) && (Stuffed(t) ==> Stuffed(s + t))
  {
    if s == [] {
      assert s + t == t;
    } else if s[0] != 0xFF {
      assert (s + t)[1..] == s[1..] + t;
      UnstuffAppend(s[1..], t);
    } else {
      assert (s + t)[2..] == s[2..] + t;
      UnstuffAppend(s[2..], t);
    }
  }

  lemma {:induction false} HighByteBitsAppend(s: seq<byte>, t: seq<byte>)
    ensures HighByteBits(s + t) == HighByteBits(s) + HighByteBits(t)
  {
    if s == [] {
      assert s + t == t;
    } else {
      assert (s + t)[1..] == s[1..] + t;
      HighByteBitsAppend(s[1..], t);
    }
  }

  /** The bytes written for one full byte of bits. */
  function Stuff(c: byte): seq<byte>
  {
    if c == 0xFF then [0xFF, 0] else [c]
  }

  lemma StuffAppend(out: seq<byte>, c: byte)
    requires Stuffed(out)
    ensures Stuffed(out + Stuff(c))
    ensures HighByteBits(Unstuff(out + Stuff(c))) == HighByteBits(Unstuff(out)) + HighBits(c, 8)
  {
    UnstuffAppend(out, Stuff(c));
    UnstuffOne(c);
    hide Unstuff, Stuff, HighBits;
    HighByteBitsAppend(Unstuff(out), [c]);
    assert HighByteBits([c]) == HighBits(c, 8) + [] == HighBits(c, 8);
  }

  lemma UnstuffOne(c: byte)
    ensures Unstuff(Stuff(c)) == [c] && Stuffed(Stuff(c))
  {
    if c == 0xFF {
      assert [0xFF, 0][2..] == [] && [0xFF] + Unstuff([]) == [c];
    } else {
      assert [c][1..] == [] && [c] + Unstuff([]) == [c];
    }
  }

  // ----- bits, most significant first -----

  lemma {:induction false} HighBitsAppend(q: nat, k: nat, v: nat, n: nat)
    requires v < Pow2(n)
    ensures HighBits(q * Pow2(n) + v, k + n) == HighBits(q, k) + HighBits(v, n)
  {
    if n == 0 {
      assert q * Pow2(0) == q;
    } else {
      Scale(q, Pow2(n - 1));
      assert (q * Pow2(n) + v) / 2 == q * Pow2(n - 1) + v / 2;
      HighBitsAppend(q, k, v / 2, n - 1);
    }
  }

  /** Only the low `n` bits of a number count. */
  lemma {:induction false} HighBitsIgnore(v: nat, j: nat, n: nat)
    ensures HighBits(v + j * Pow2(n), n) == HighBits(v, n)
  {
    if n > 0 {
      Scale(j, Pow2(n - 1));
      assert (v + j * Pow2(n)) / 2 == v / 2 + j * Pow2(n - 1);
      HighBitsIgnore(v / 2, j, n - 1);
    }
  }

  lemma {:induction false} Divide(q: nat, p: nat) returns (a: nat, b: nat)
    requires p > 0
    ensures q == a * p + b && b < p
  {
    if q < p {
      a, b := 0, q;
    } else {
      a, b := Divide(q - p, p);
      a := a + 1;
    }
  }

  /** The byte above bit 16 of `q * r` is the top byte of the low `c` bits of `q`. */
  lemma TopByte(q: nat, c: nat, r: nat)
    requires 8 <= c <= 24 && r == Pow2(24 - c)
    ensures HighBits(q, c) == HighBits(q * r / 0x1_0000 % 0x100, 8) + HighBits(q, c - 8)
  {
    hide *;
    Pow2Add(c - 8, 24 - c);
    BytePowers();
    var p := Pow2(c - 8);
    var a, b := Divide(q, p);
    Shifted(q, a, b, p, r);
    HighBitsAppend(a, 8, b, c - 8);
    HighBitsIgnore(b, a, c - 8);
    HighBitsIgnore(a % 0x100, a / 0x100, 8);
  }

  lemma Shifted(q: nat, a: nat, b: nat, p: nat, r: nat)
    requires q == a * p + b && b < p && p * r == 0x1_0000
    ensures q * r / 0x1_0000 == a
  {
    assert q * r == a * (p * r) + b * r;
    assert b * r < p * r;
  }

  /** Shifting the buffer left by 8 within 32 bits keeps the pending bits. */
  lemma ShiftOut(q: nat, c: nat, r: nat) returns (q': nat)
    requires 8 <= c <= 24 && r == Pow2(24 - c)
    ensures q * r * 0x100 % 0x1_0000_0000 == q' * Pow2(32 - c) && HighBits(q', c - 8) == HighBits(q, c - 8)
  {
    hide *;
    Pow2Add(24 - c, 8);
    Pow2Add(c, 32 - c);
    Pow2Add(c - 8, 8);
    BytePowers();
    var m, s := Pow2(32 - c), Pow2(c - 8);
    assert q * r * 0x100 == q * m;
    var j := q * m / 0x1_0000_0000;
    Subtract(q, j, Pow2(c), m);
    q' := q - j * Pow2(c);
    assert j * Pow2(c) == (j * 0x100) * s;
    HighBitsIgnore(q', j * 0x100, c - 8);
  }

  lemma Subtract(q: nat, j: nat, p: nat, m: nat)
    requires p * m == 0x1_0000_0000 && j == q * m / 0x1_0000_0000
    ensures j * p <= q && q * m % 0x1_0000_0000 == (q - j * p) * m
  {
    assert j * p * m == j * (p * m);
    assert q * m == j * 0x1_0000_0000 + q * m % 0x1_0000_0000;
    assert (q - j * p) * m == q * m - j * p * m;
    if j * p > q { CancelLess(q, j * p, m); }
  }

  lemma CancelLess(x: nat, y: nat, m: nat)
    requires x < y && m > 0
    ensures x * m < y * m
  {
  }

  lemma {:induction false} OrBelow(c: nat, k: nat, b: nat)
    requires b < Pow2(k)
    ensures Or(c * Pow2(k), b) == c * Pow2(k) + b
  {
    if k > 0 && b > 0 && c > 0 {
      Scale(c, Pow2(k - 1));
      OrBelow(c, k - 1, b / 2);
    }
  }

  /** Adding a field below the pending bits: the arithmetic of the shifted `|=`. */
  lemma AddField(q: nat, c: nat, v: nat, n: nat)
    requires c < 8 && n <= 16 && v < Pow2(n) && q * Pow2(24 - c) < 0x1_0000_0000
    ensures v * Pow2(24 - c - n) < Pow2(24 - c)
    ensures Or(q * Pow2(24 - c), v * Pow2(24 - c - n)) == (q * Pow2(n) + v) * Pow2(24 - c - n) < 0x1_0000_0000
  {
    hide *;
    var r := Pow2(24 - c - n);
    Pow2Add(n, 24 - c - n);
    Pow2Add(24 - c, 8 + c);
    BytePowers();
    FieldBelow(v, Pow2(n), r);
    OrBelow(q, 24 - c, v * r);
    assert q * (Pow2(n) * r) == q * Pow2(n) * r;
    Room(q, Pow2(24 - c), Pow2(8 + c), v * r);
  }

  lemma FieldBelow(v: nat, p: nat, r: nat)
    requires v < p && r > 0
    ensures v * r < p * r
  {
  }

  lemma Room(q: nat, p: nat, m: nat, x: nat)
    requires p * m == 0x1_0000_0000 && q * p < p * m && x < p
    ensures q * p + x < 0x1_0000_0000
  {
    assert q < m;
    assert (q + 1) * p <= m * p;
  }

  // ----- the bit buffer -----

  class BitWriter {
    var out: seq<byte>
    var bitBuf: nat  // a 32-bit word, its pending bits from bit 23 down
    var bitCnt: nat
    ghost var q: nat  // bitBuf without the empty low bits
    ghost var written: seq<bool>  // every bit so far

    ghost predicate Valid()
      reads this
    {
      bitCnt < 8 && Pending()
    }

    ghost predicate Pending()
      reads this
    {
      bitCnt <= 24 && bitBuf == q * Pow2(24 - bitCnt) < 0x1_0000_0000 && Stuffed(out) &&
      written == HighByteBits(Unstuff(out)) + HighBits(q, bitCnt)
    }

    constructor ()
      ensures Valid() && written == [] && out == [] && bitCnt == 0
    {
      out, bitBuf, bitCnt, q, written := [], 0, 0, 0, [];
    }

    method WriteBits(code: nat, len: nat)
      requires Valid() && len <= 16 && code < Pow2(len)
      modifies this
      ensures Valid() && written == old(written) + HighBits(code, len)
    {
      AddBits(code, len);
      hide Pending, HighBits, Pow2;
      while bitCnt >= 8
        invariant Pending() && written == old(written) + HighBits(code, len)
      {
        FlushByte();
      }
    }

    method AddBits(code: nat, len: nat)
      requires Valid() && len <= 16 && code < Pow2(len)
      modifies this`bitBuf, this`bitCnt, this`q, this`written
      ensures Pending() && bitCnt == old(bitCnt) + len && written == old(written) + HighBits(code, len)
    {
      hide HighBits, Pow2, Or, Unstuff, HighByteBits, Stuffed;
      AddField(q, bitCnt, code, len);
      HighBitsAppend(q, bitCnt, code, len);
      bitCnt := bitCnt + len;
      bitBuf := Or(bitBuf, code * Pow2(24 - bitCnt));
      q := q * Pow2(len) + code;
      written := written + HighBits(code, len);
    }

    /** One turn of the output loop. */
    method FlushByte()
      requires Pending() && bitCnt >= 8
      modifies this`out, this`bitBuf, this`bitCnt, this`q
      ensures Pending() && bitCnt == old(bitCnt) - 8
    {
      hide HighBits, Pow2, Unstuff, HighByteBits, Stuffed;
      var c: byte := bitBuf / 0x1_0000 % 0x100;
      ghost var q' := FlushKeeps(q, bitCnt, bitBuf, out, c);
      out := out + [c];
      if c == 255 {
        out := out + [0];
      }
      assert out == old(out) + Stuff(c);
      bitBuf := bitBuf * 0x100 % 0x1_0000_0000;
      bitCnt := bitCnt - 8;
      q := q';
    }
  }

  lemma FlushKeeps(q: nat, c: nat, bitBuf: nat, out: seq<byte>, top: byte) returns (q': nat)
    requires 8 <= c <= 24 && bitBuf == q * Pow2(24 - c) && Stuffed(out) && top == bitBuf / 0x1_0000 % 0x100
    ensures bitBuf * 0x100 % 0x1_0000_0000 == q' * Pow2(32 - c) && Stuffed(out + Stuff(top))
    ensures HighByteBits(Unstuff(out)) + HighBits(q, c) == HighByteBits(Unstuff(out + Stuff(top))) + HighBits(q', c - 8)
  {
    hide *;
    TopByte(q, c, Pow2(24 - c));
    StuffAppend(out, top);
    q' := ShiftOut(q, c, Pow2(24 - c));
    var a, b, d := HighByteBits(Unstuff(out)), HighBits(top, 8), HighBits(q, c - 8);
    assert a + (b + d) == a + b + d;
  }

  // ----- magnitude bits -----

  /** The size of a value and the bits that follow its code; EXTEND gives the value back. */
  method CalcBits(val: int) returns (bits: nat, n: nat)
    requires val != 0
    ensures n >= 1 && bits < Pow2(n) && Pow2(n - 1) <= Abs(val) && Extend(bits, n) == val
  {
    var tmp1 := if val < 0 then -val else val;
    var v := if val < 0 then val - 1 else val;
    n := 1;
    assert tmp1 * Pow2(0) == tmp1;
    while tmp1 / 2 != 0
      invariant n >= 1 && tmp1 >= 1
      invariant tmp1 * Pow2(n - 1) <= Abs(val) < (tmp1 + 1) * Pow2(n - 1)
    {
      Halve(tmp1, Pow2(n - 1), Abs(val));
      tmp1 := tmp1 / 2;
      n := n + 1;
    }
    MagnitudeBits(val, n);
    bits := v % Pow2(n);
  }

  lemma Halve(t: nat, p: nat, x: nat)
    requires t * p <= x < (t + 1) * p
    ensures (t / 2) * (2 * p) <= x < (t / 2 + 1) * (2 * p)
  {
    assert (t / 2) * (2 * p) == (t / 2 * 2) * p <= t * p by { Times(t / 2 * 2, t, p); }
    assert (t / 2 + 1) * (2 * p) == (t / 2 * 2 + 2) * p >= (t + 1) * p by { Times(t + 1, t / 2 * 2 + 2, p); }
  }

  lemma MagnitudeBits(val: int, n: nat)
    requires val != 0 && n >= 1 && Pow2(n - 1) <= Abs(val) < Pow2(n)
    ensures var bits := (if val < 0 then val - 1 else val) % Pow2(n); bits < Pow2(n) && Extend(bits, n) == val
  {
    if val < 0 {
      WrapNegative(val - 1, Pow2(n));
    } else {
      SmallMod(val, Pow2(n));
    }
  }

  lemma WrapNegative(x: int, p: nat)
    requires 0 <= x + p && x < 0
    ensures x % p == x + p
  {
    assert x == (-1) * p + (x + p);
  }

  lemma SizeAtMost(val: int, n: nat, limit: nat)
    requires val != 0 && n >= 1 && Pow2(n - 1) <= Abs(val) < Pow2(limit)
    ensures n <= limit
  {
    if n > limit { Pow2Monotone(limit, n - 1); }
  }

  // ----- what emitted bits mean to the decoder -----

  ghost predicate DiffMeans(t: Tables, e: seq<bool>, diff: int)
    requires t.Valid()
  {
    forall rest :: ReadDiff(t, e + rest) == Some((diff, rest))
  }

  /** The bits `e` take the AC decoder from the coefficients `zz` to `zz'`. */
  ghost predicate AcMeans(t: Tables, e: seq<bool>, zz: seq<int>, zz': seq<int>)
    requires t.Valid() && |zz| <= 64 && |zz'| <= 64
  {
    forall rest :: ReadAc(t, e + rest, zz) == ReadAc(t, rest, zz')
  }

  ghost predicate BlockMeans(t: Tables, e: seq<bool>, pred: int, du: seq<int>)
    requires t.Valid()
  {
    forall rest :: ReadBlock(t, e + rest, pred) == Some((du, rest))
  }

  lemma AcNothing(t: Tables, zz: seq<int>)
    requires t.Valid() && |zz| <= 64
    ensures AcMeans(t, [], zz, zz)
  {
    forall rest: seq<bool> ensures ReadAc(t, [] + rest, zz) == ReadAc(t, rest, zz) {
      assert [] + rest == rest;
    }
  }

  lemma AcThen(t: Tables, e: seq<bool>, e': seq<bool>, a: seq<int>, b: seq<int>, c: seq<int>)
    requires t.Valid() && |a| <= 64 && |b| <= 64 && |c| <= 64
    requires AcMeans(t, e, a, b) && AcMeans(t, e', b, c)
    ensures AcMeans(t, e + e', a, c)
  {
    hide ReadAc;
    forall rest ensures ReadAc(t, e + e' + rest, a) == ReadAc(t, rest, c) {
      assert e + e' + rest == e + (e' + rest);
    }
  }

  lemma ReceiveRoundTrip(v: nat, n: nat, rest: seq<bool>)
    requires v < Pow2(n)
    ensures Receive(HighBits(v, n) + rest, n) == Some((v, rest))
  {
    FromHighBits(v, n);
    hide Pow2;
    var h := HighBits(v, n);
    assert (h + rest)[..n] == h && (h + rest)[n..] == rest;
  }

  lemma DiffBits(t: Tables, n: nat, v: nat, diff: int)
    requires t.Valid() && n <= 11 && v < Pow2(n) && Extend(v, n) == diff
    ensures DiffMeans(t, Code(t.dc, n) + HighBits(v, n), diff)
  {
    assert n in DC_SYMBOLS;
    hide Pow2, Extend, HighBits, Usable, DC_SYMBOLS;
    var c, h := Code(t.dc, n), HighBits(v, n);
    forall rest ensures ReadDiff(t, c + h + rest) == Some((diff, rest)) {
      assert c + h + rest == c + (h + rest);
      SymbolRoundTrip(t.dc, DC_SYMBOLS, n, h + rest);
      ReceiveRoundTrip(v, n, rest);
    }
  }

  /** A run of fewer than 16 zeros and a non-zero value. */
  lemma RunValueBits(t: Tables, run: nat, n: nat, v: nat, val: int, zz: seq<int>)
    requires t.Valid() && run <= 15 && 1 <= n <= 10 && v < Pow2(n) && Extend(v, n) == val && |zz| + run <= 63
    ensures AcMeans(t, Code(t.ac, 16 * run + n) + HighBits(v, n), zz, zz + Zeros(run) + [val])
  {
    var rs := 16 * run + n;
    assert rs in AC_SYMBOLS && rs / 16 == run && rs % 16 == n;
    var c, h := Code(t.ac, rs), HighBits(v, n);
    forall rest ensures ReadAc(t, c + h + rest, zz) == ReadAc(t, rest, zz + Zeros(run) + [val]) {
      assert c + h + rest == c + (h + rest);
      SymbolRoundTrip(t.ac, AC_SYMBOLS, rs, h + rest);
      ReceiveRoundTrip(v, n, rest);
      hide Pow2, Extend, HighBits, Usable, Code;
    }
  }

  /** Sixteen zeros. */
  lemma ZrlBits(t: Tables, zz: seq<int>)
    requires t.Valid() && |zz| <= 47
    ensures AcMeans(t, Code(t.ac, 0xF0), zz, zz + Zeros(16))
  {
    assert 0xF0 in AC_SYMBOLS;
    hide Usable, HighBits;
    var c := Code(t.ac, 0xF0);
    forall rest ensures ReadAc(t, c + rest, zz) == ReadAc(t, rest, zz + Zeros(16)) {
      SymbolRoundTrip(t.ac, AC_SYMBOLS, 0xF0, rest);
    }
  }

  /** End of block: the remaining coefficients are zero. */
  lemma EobBits(t: Tables, zz: seq<int>)
    requires t.Valid() && |zz| <= 63
    ensures AcMeans(t, Code(t.ac, 0x00), zz, zz + Zeros(64 - |zz|))
  {
    assert 0x00 in AC_SYMBOLS;
    hide Usable, HighBits;
    var c := Code(t.ac, 0x00);
    forall rest ensures ReadAc(t, c + rest, zz) == ReadAc(t, rest, zz + Zeros(64 - |zz|)) {
      SymbolRoundTrip(t.ac, AC_SYMBOLS, 0x00, rest);
    }
  }

  lemma BlockBits(t: Tables, d: seq<bool>, e: seq<bool>, pred: int, du: seq<int>)
    requires t.Valid() && |du| == 64 && DiffMeans(t, d, du[0] - pred) && AcMeans(t, e, [du[0]], du)
    ensures BlockMeans(t, d + e, pred, du)
  {
    hide ReadDiff, Usable;
    forall rest ensures ReadBlock(t, d + e + rest, pred) == Some((du, rest)) {
      assert d + e + rest == d + (e + rest);
      assert ReadAc(t, e + rest, [du[0]]) == ReadAc(t, rest, du) == Some((du, rest));
    }
  }

  // ----- coding a block -----

  method WriteSymbol(w: BitWriter, t: Table, s: nat, ghost symbols: set<nat>)
    requires w.Valid() && Usable(t, symbols) && s in symbols
    modifies w
    ensures w.Valid() && w.written == old(w.written) + Code(t, s)
  {
    w.WriteBits(t[s].0, t[s].1);
  }

  method EncodeDc(w: BitWriter, t: Tables, diff: int) returns (ghost e: seq<bool>)
    requires w.Valid() && t.Valid() && Abs(diff) <= 2047
    modifies w
    ensures w.Valid() && w.written == old(w.written) + e && DiffMeans(t, e, diff)
  {
    if diff == 0 {
      DiffBits(t, 0, 0, 0);
      WriteSymbol(w, t.dc, 0, DC_SYMBOLS);
      e := Code(t.dc, 0) + HighBits(0, 0);
    } else {
      var bits, n := CalcBits(diff);
      assert Pow2(11) == 2048;
      hide Pow2, HighBits, Code, DiffMeans, Extend, Usable, BitWriter.Pending;
      SizeAtMost(diff, n, 11);
      DiffBits(t, n, bits, diff);
      assert n in DC_SYMBOLS;
      Pow2Monotone(n, 11);
      WriteSymbol(w, t.dc, n, DC_SYMBOLS);
      w.WriteBits(bits, n);
      e := Code(t.dc, n) + HighBits(bits, n);
    }
  }

  method WriteZrl(w: BitWriter, t: Tables, ghost zz: seq<int>) returns (ghost e: seq<bool>)
    requires w.Valid() && t.Valid() && |zz| + 16 <= 63
    modifies w
    ensures w.Valid() && w.written == old(w.written) + e && AcMeans(t, e, zz, zz + Zeros(16))
  {
    assert 0xF0 in AC_SYMBOLS;
    e := Code(t.ac, 0xF0);
    ZrlBits(t, zz);
    WriteSymbol(w, t.ac, 0xF0, AC_SYMBOLS);
  }

  method WriteEob(w: BitWriter, t: Tables, ghost zz: seq<int>) returns (ghost e: seq<bool>)
    requires w.Valid() && t.Valid() && |zz| <= 63
    modifies w
    ensures w.Valid() && w.written == old(w.written) + e && AcMeans(t, e, zz, zz + Zeros(64 - |zz|))
  {
    assert 0x00 in AC_SYMBOLS;
    e := Code(t.ac, 0x00);
    EobBits(t, zz);
    WriteSymbol(w, t.ac, 0x00, AC_SYMBOLS);
  }

  method EncodeZrls(w: BitWriter, t: Tables, lng: nat, ghost zz: seq<int>) returns (ghost e: seq<bool>)
    requires w.Valid() && t.Valid() && |zz| + 16 * lng <= 63
    modifies w
    ensures w.Valid() && w.written == old(w.written) + e && AcMeans(t, e, zz, zz + Zeros(16 * lng))
  {
    hide AcMeans, Tables.Valid, BitWriter.Valid;
    e := [];
    AcNothing(t, zz);
    ghost var z := zz;
    assert zz + Zeros(0) == zz;
    var nrmarker := 1;
    while nrmarker <= lng
      invariant 1 <= nrmarker <= lng + 1 && z == zz + Zeros(16 * (nrmarker - 1))
      invariant w.Valid() && w.written == old(w.written) + e
      invariant AcMeans(t, e, zz, z)
    {
      ghost var e1 := WriteZrl(w, t, z);
      AcThen(t, e, e1, zz, z, z + Zeros(16));
      e := e + e1;
      z := z + Zeros(16);
      nrmarker := nrmarker + 1;
    }
  }

  /** A run of zeros and the value after it. */
  method EncodeRun(w: BitWriter, t: Tables, zeros: nat, val: int, ghost zz: seq<int>) returns (ghost e: seq<bool>)
    requires w.Valid() && t.Valid() && |zz| + zeros <= 63 && val != 0 && Abs(val) <= 1023
    modifies w
    ensures w.Valid() && w.written == old(w.written) + e && AcMeans(t, e, zz, zz + Zeros(zeros) + [val])
  {
    hide AcMeans, Tables.Valid, BitWriter.Valid;
    var nrzeroes := zeros;
    ghost var e0 := [];
    ghost var z := zz;
    if nrzeroes >= 16 {
      var lng := nrzeroes / 16;
      e0 := EncodeZrls(w, t, lng, zz);
      z := zz + Zeros(16 * lng);
      nrzeroes := nrzeroes % 16;
    } else {
      AcNothing(t, zz);
    }
    assert z + Zeros(nrzeroes) + [val] == zz + Zeros(zeros) + [val];
    ghost var e1 := EncodeValue(w, t, nrzeroes, val, z);
    AcThen(t, e0, e1, zz, z, zz + Zeros(zeros) + [val]);
    e := e0 + e1;
  }

  /** A run and a size make a symbol of the AC table. */
  lemma AcSymbol(run: nat, n: nat)
    requires run <= 15 && 1 <= n <= 10
    ensures 16 * run + n in AC_SYMBOLS
  {
  }

  method EncodeValue(w: BitWriter, t: Tables, run: nat, val: int, ghost zz: seq<int>) returns (ghost e: seq<bool>)
    requires w.Valid() && t.Valid() && run <= 15 && |zz| + run <= 63 && val != 0 && Abs(val) <= 1023
    modifies w
    ensures w.Valid() && w.written == old(w.written) + e && AcMeans(t, e, zz, zz + Zeros(run) + [val])
  {
    assert Pow2(10) == 1024;
    hide AcMeans, Usable, HighBits, BitWriter.Valid, Code, Extend, Pow2, AC_SYMBOLS;
    var bits, n := CalcBits(val);
    SizeAtMost(val, n, 10);
    var rs := 16 * run + n;
    AcSymbol(run, n);
    RunValueBits(t, run, n, bits, val, zz);
    WriteSymbol(w, t.ac, rs, AC_SYMBOLS);
    w.WriteBits(bits, n);
    e := Code(t.ac, rs) + HighBits(bits, n);
  }

  /** The coefficients the baseline code can carry. */
  ghost predicate InRange(du: seq<int>, pred: int)
  {
    |du| == 64 && Abs(du[0] - pred) <= 2047 && forall k | 1 <= k < 64 :: Abs(du[k]) <= 1023
  }

  /** The position of the last non-zero coefficient, 0 when there is none after the first. */
  method LastNonZero(du: seq<int>) returns (end0pos: nat)
    requires |du| == 64
    ensures end0pos <= 63 && (end0pos > 0 ==> du[end0pos] != 0) && du[end0pos + 1..] == Zeros(63 - end0pos)
  {
    end0pos := 63;
    while end0pos > 0 && du[end0pos] == 0
      invariant end0pos <= 63 && du[end0pos + 1..] == Zeros(63 - end0pos)
    {
      assert du[end0pos..] == [0] + du[end0pos + 1..] == Zeros(64 - end0pos);
      end0pos := end0pos - 1;
    }
  }

  method EncodeAc(w: BitWriter, t: Tables, du: seq<int>) returns (ghost e: seq<bool>)
    requires w.Valid() && t.Valid() && |du| == 64 && forall k | 1 <= k < 64 :: Abs(du[k]) <= 1023
    modifies w
    ensures w.Valid() && w.written == old(w.written) + e && AcMeans(t, e, [du[0]], du)
  {
    hide AcMeans, Tables.Valid, BitWriter.Valid, Abs;
    var end0pos := LastNonZero(du);
    var i := 1;
    e := [];
    ghost var e1;
    AcNothing(t, [du[0]]);
    assert du[..1] == [du[0]];
    while i <= end0pos
      invariant 1 <= i <= end0pos + 1 && w.Valid() && w.written == old(w.written) + e
      invariant AcMeans(t, e, [du[0]], du[..i])
    {
      var next;
      next, e1 := EncodeNext(w, t, du, i, end0pos);
      AcThen(t, e, e1, [du[0]], du[..i], du[..next]);
      e, i := e + e1, next;
    }
    e1 := EndBlock(w, t, du, end0pos);
    AcThen(t, e, e1, [du[0]], du[..i], du);
    e := e + e1;
  }

  /** The next non-zero coefficient, with the zeros before it. */
  method EncodeNext(w: BitWriter, t: Tables, du: seq<int>, start: nat, end0pos: nat)
    returns (next: nat, ghost e: seq<bool>)
    requires w.Valid() && t.Valid() && |du| == 64 && 1 <= start <= end0pos < 64 && du[end0pos] != 0
    requires forall k | 1 <= k < 64 :: Abs(du[k]) <= 1023
    modifies w
    ensures start < next <= end0pos + 1
    ensures w.Valid() && w.written == old(w.written) + e && AcMeans(t, e, du[..start], du[..next])
  {
    hide AcMeans, Tables.Valid, BitWriter.Valid;
    var i := SkipZeros(du, start, end0pos);
    e := EncodeRun(w, t, i - start, du[i], du[..start]);
    assert du[..start] + Zeros(i - start) + [du[i]] == du[..i + 1];
    next := i + 1;
  }

  method EndBlock(w: BitWriter, t: Tables, du: seq<int>, end0pos: nat) returns (ghost e: seq<bool>)
    requires w.Valid() && t.Valid() && |du| == 64 && end0pos <= 63 && du[end0pos + 1..] == Zeros(63 - end0pos)
    modifies w
    ensures w.Valid() && w.written == old(w.written) + e && AcMeans(t, e, du[..end0pos + 1], du)
  {
    hide AcMeans, Tables.Valid, BitWriter.Valid;
    var z := du[..end0pos + 1];
    assert z + Zeros(63 - end0pos) == du;
    e := [];
    if end0pos != 63 {
      e := WriteEob(w, t, z);
    } else {
      assert z == du;
      AcNothing(t, du);
    }
  }

  method SkipZeros(du: seq<int>, start: nat, end0pos: nat) returns (i: nat)
    requires start <= end0pos < |du| && du[end0pos] != 0
    ensures start <= i <= end0pos && du[i] != 0 && du[start..i] == Zeros(i - start)
  {
    i := start;
    while du[i] == 0 && i <= end0pos
      invariant start <= i <= end0pos && du[start..i] == Zeros(i - start)
      decreases end0pos - i
    {
      assert du[start..i + 1] == du[start..i] + [0] == Zeros(i + 1 - start);
      i := i + 1;
    }
  }

  /** One block after the transform and quantisation; the result predicts the next block's DC value. */
  method ProcessDU(w: BitWriter, t: Tables, du: seq<int>, pred: int) returns (dc: int, ghost e: seq<bool>)
    requires w.Valid() && t.Valid() && InRange(du, pred)
    modifies w
    ensures w.Valid() && w.written == old(w.written) + e && BlockMeans(t, e, pred, du) && dc == du[0]
  {
    hide AcMeans, DiffMeans, BlockMeans, Usable, BitWriter.Valid;
    ghost var d := EncodeDc(w, t, du[0] - pred);
    ghost var a := EncodeAc(w, t, du);
    BlockBits(t, d, a, pred, du);
    e := d + a;
    dc := du[0];
  }

  // ----- the scan -----

  function Prepend(done: seq<seq<int>>, r: Option<seq<seq<int>>>): Option<seq<seq<int>>>
  {
    match r case None => None case Some(more) => Some(done + more)
  }

  datatype ScanState = ScanState(comps: seq<nat>, pred: seq<int>)
  {
    predicate Valid() {
      |pred| == 3 && forall i | 0 <= i < |comps| :: comps[i] < 3
    }
  }

  /** The bits `e` give the decoder the blocks `done` and take it from `s` to `s'`. */
  ghost predicate ScanMeans(luma: Tables, chroma: Tables, e: seq<bool>, s: ScanState, done: seq<seq<int>>,
      s': ScanState)
    requires luma.Valid() && chroma.Valid() && s.Valid() && s'.Valid()
  {
    forall rest :: ReadScan(luma, chroma, e + rest, s.comps, s.pred)
                == Prepend(done, ReadScan(luma, chroma, rest, s'.comps, s'.pred))
  }

  /** The state after a block with coefficients `du`. */
  function After(s: ScanState, du: seq<int>): ScanState
    requires s.Valid() && s.comps != [] && |du| == 64
    ensures After(s, du).Valid()
  {
    ScanState(s.comps[1..], s.pred[s.comps[0] := du[0]])
  }

  lemma ScanNothing(luma: Tables, chroma: Tables, s: ScanState)
    requires luma.Valid() && chroma.Valid() && s.Valid()
    ensures ScanMeans(luma, chroma, [], s, [], s)
  {
    hide ReadScan;
    forall rest: seq<bool> ensures ReadScan(luma, chroma, [] + rest, s.comps, s.pred)
                     == Prepend([], ReadScan(luma, chroma, rest, s.comps, s.pred)) {
      assert [] + rest == rest;
      var r := ReadScan(luma, chroma, rest, s.comps, s.pred);
      assert r.Some? ==> [] + r.value == r.value;
    }
  }

  lemma ScanThen(luma: Tables, chroma: Tables, e: seq<bool>, s: ScanState, done: seq<seq<int>>, s1: ScanState,
                 e1: seq<bool>, du: seq<int>)
    requires luma.Valid() && chroma.Valid() && s.Valid() && s1.Valid() && s1.comps != [] && |du| == 64
    requires ScanMeans(luma, chroma, e, s, done, s1)
    requires BlockMeans(Of(luma, chroma, s1.comps[0]), e1, s1.pred[s1.comps[0]], du)
    ensures ScanMeans(luma, chroma, e + e1, s, done + [du], After(s1, du))
  {
    var s2 := After(s1, du);
    forall rest ensures ReadScan(luma, chroma, e + e1 + rest, s.comps, s.pred)
                     == Prepend(done + [du], ReadScan(luma, chroma, rest, s2.comps, s2.pred)) {
      assert ReadBlock(Of(luma, chroma, s1.comps[0]), e1 + rest, s1.pred[s1.comps[0]]) == Some((du, rest));
      hide ReadScan, ReadBlock, Tables.Valid;
      assert e + e1 + rest == e + (e1 + rest);
      BlockStep(luma, chroma, e1 + rest, s1, du, rest);
      PrependTwice(done, du, ReadScan(luma, chroma, rest, s2.comps, s2.pred));
    }
  }

  lemma PrependTwice(done: seq<seq<int>>, du: seq<int>, r: Option<seq<seq<int>>>)
    ensures Prepend(done, Prepend([du], r)) == Prepend(done + [du], r)
  {
    if r.Some? { assert done + ([du] + r.value) == done + [du] + r.value; }
  }

  lemma BlockStep(luma: Tables, chroma: Tables, b: seq<bool>, s: ScanState, du: seq<int>, rest: seq<bool>)
    requires luma.Valid() && chroma.Valid() && s.Valid() && s.comps != [] && |du| == 64
    requires ReadBlock(Of(luma, chroma, s.comps[0]), b, s.pred[s.comps[0]]) == Some((du, rest))
    ensures ReadScan(luma, chroma, b, s.comps, s.pred)
         == Prepend([du], ReadScan(luma, chroma, rest, After(s, du).comps, After(s, du).pred))
  {
    hide ReadBlock, Usable;
  }

  /** Every block within the range of the baseline code, given the predictions before it. */
  ghost predicate ScanInRange(s: ScanState, dus: seq<seq<int>>)
    requires s.Valid()
    decreases |dus|
  {
    |dus| == |s.comps| &&
    (dus != [] ==> InRange(dus[0], s.pred[s.comps[0]]) && ScanInRange(After(s, dus[0]), dus[1..]))
  }

  /** The blocks of the scan in their order, with one DC prediction for each of Y, U and V. */
  method EncodeBlocks(w: BitWriter, luma: Tables, chroma: Tables, comps: seq<nat>, dus: seq<seq<int>>)
    returns (ghost e: seq<bool>)
    requires w.Valid() && luma.Valid() && chroma.Valid()
    requires ScanState(comps, [0, 0, 0]).Valid() && ScanInRange(ScanState(comps, [0, 0, 0]), dus)
    modifies w
    ensures w.Valid() && w.written == old(w.written) + e
    ensures forall rest :: ReadScan(luma, chroma, e + rest, comps, [0, 0, 0]) == Some(dus)
  {
    hide Tables.Valid, BitWriter.Valid, ScanMeans, InRange, BlockMeans;
    var dcY, dcU, dcV := 0, 0, 0;
    ghost var s0 := ScanState(comps, [0, 0, 0]);
    ghost var s := s0;
    e := [];
    ScanNothing(luma, chroma, s0);
    var k := 0;
    while k < |dus|
      invariant k <= |dus| == |comps| && s == ScanState(comps[k..], [dcY, dcU, dcV])
      invariant s0.Valid() && s.Valid() && ScanInRange(s, dus[k..])
      invariant w.Valid() && w.written == old(w.written) + e
      invariant ScanMeans(luma, chroma, e, s0, dus[..k], s)
    {
      ghost var e1;
      var c := comps[k];
      assert s.comps[0] == c && |dus[k]| == 64 by { FirstInRange(s, dus[k..]); }
      var pred := if c == 0 then dcY else if c == 1 then dcU else dcV;
      var dc;
      dc, e1 := ProcessDU(w, if c == 0 then luma else chroma, dus[k], pred);
      ScanThen(luma, chroma, e, s0, dus[..k], s, e1, dus[k]);
      if c == 0 { dcY := dc; } else if c == 1 { dcU := dc; } else { dcV := dc; }
      s := After(s, dus[k]);
      e := e + e1;
      assert dus[..k] + [dus[k]] == dus[..k + 1];
      k := k + 1;
    }
    assert dus[..k] == dus;
    ScanDone(luma, chroma, e, s0, dus, s);
  }

  lemma FirstInRange(s: ScanState, dus: seq<seq<int>>)
    requires s.Valid() && dus != [] && ScanInRange(s, dus)
    ensures s.comps != [] && InRange(dus[0], s.pred[s.comps[0]]) && |dus[0]| == 64
    ensures ScanInRange(After(s, dus[0]), dus[1..])
  {
  }

  lemma ScanDone(luma: Tables, chroma: Tables, e: seq<bool>, s: ScanState, dus: seq<seq<int>>, s': ScanState)
    requires luma.Valid() && chroma.Valid() && s.Valid() && s'.Valid() && s'.comps == []
    requires ScanMeans(luma, chroma, e, s, dus, s')
    ensures forall rest :: ReadScan(luma, chroma, e + rest, s.comps, s.pred) == Some(dus)
  {
    forall rest ensures ReadScan(luma, chroma, e + rest, s.comps, s.pred) == Some(dus) {
      assert ReadScan(luma, chroma, rest, s'.comps, s'.pred) == Some([]);
      assert dus + [] == dus;
    }
  }

  /** The entropy-coded segment and the EOI marker after it. */
  method EncodeScan(luma: Tables, chroma: Tables, comps: seq<nat>, dus: seq<seq<int>>) returns (out: seq<byte>)
    requires luma.Valid() && chroma.Valid()
    requires ScanState(comps, [0, 0, 0]).Valid() && ScanInRange(ScanState(comps, [0, 0, 0]), dus)
    ensures ReadScan(luma, chroma, HighByteBits(Unstuff(out)), comps, [0, 0, 0]) == Some(dus)
    ensures |out| >= 2 && Stuffed(out[..|out| - 2]) && out[|out| - 2..] == [0xFF, 0xD9]
  {
    hide ReadScan, Tables.Valid, ScanInRange, Stuffed, HighByteBits, Unstuff, HighBits, BitWriter.Valid;
    var w := new BitWriter();
    ghost var e := EncodeBlocks(w, luma, chroma, comps, dus);
    assert Pow2(7) == 128;
    w.WriteBits(0x7F, 7);
    ghost var fill := FillDrops(w, e);
    MarkerStops(w.out);
    out := w.out + [0xFF] + [0xD9];
    assert out == w.out + [0xFF, 0xD9];
  }

  /** What is still pending after the fill is part of the fill. */
  lemma FillDrops(w: BitWriter, e: seq<bool>) returns (fill: seq<bool>)
    requires w.Valid() && w.written == [] + e + HighBits(0x7F, 7)
    ensures HighByteBits(Unstuff(w.out)) == e + fill && Stuffed(w.out)
  {
    hide HighBits, HighByteBits, Unstuff, Stuffed;
    var b := HighByteBits(Unstuff(w.out));
    assert |b| >= |e|;
    fill := b[|e|..];
    assert b == w.written[..|b|];
    assert w.written[..|e|] == e;
    assert b[..|e|] == e;
  }

  lemma MarkerStops(s: seq<byte>)
    requires Stuffed(s)
    ensures Unstuff(s + [0xFF, 0xD9]) == Unstuff(s)
  {
    UnstuffAppend(s, [0xFF, 0xD9]);
  }
}
