/** A zlib decoder: RFC 1950 section 2.2 around the stored and fixed-Huffman blocks of RFC 1951. */
module Inflate {
  import opened Bits
  import Adler

  /** The fixed Huffman code of a literal/length symbol, RFC 1951 section 3.2.6. */
  function SymbolBits(n: nat): (r: seq<bool>)
    requires n <= 287
    ensures 7 <= |r| <= 9
  {
    if n <= 143 then HighBits(0x30 + n, 8)
    else if n <= 255 then HighBits(0x190 + n - 144, 9)
    else if n <= 279 then HighBits(n - 256, 7)
    else HighBits(0xC0 + n - 280, 8)
  }

  /** Reads one literal/length symbol; the result is the symbol and the bits after it. */
  function ReadSymbol(b: seq<bool>): (r: Option<(nat, seq<bool>)>)
    ensures r.Some? ==> |r.value.1| < |b|
  {
    if |b| >= 7 && FromHigh(b[..7]) <= 23 then Some((256 + FromHigh(b[..7]), b[7..]))
    else if |b| < 8 then None
    else
      var c := FromHigh(b[..8]);
      if 0x30 <= c <= 0xBF then Some((c - 0x30, b[8..]))
      else if 0xC0 <= c <= 0xC7 then Some((280 + c - 0xC0, b[8..]))
      else if |b| < 9 || FromHigh(b[..9]) < 0x190 then None
      else Some((144 + FromHigh(b[..9]) - 0x190, b[9..]))
  }

  /**
   * Extra bits and base values of the length and distance codes, RFC 1951 section 3.2.5: each code
   * starts where the extra bits of the one before end, but length 258 has a code of its own.
   */
  function LengthExtra(c: nat): nat
  {
    if c < 8 || c == 28 then 0 else c / 4 - 1
  }

  function LengthBase(c: nat): nat
  {
    if c == 0 then 3 else if c == 28 then 258 else LengthBase(c - 1) + Pow2(LengthExtra(c - 1))
  }

  function DistanceExtra(c: nat): nat
  {
    if c < 4 then 0 else c / 2 - 1
  }

  function DistanceBase(c: nat): (r: nat)
    ensures r >= 1
  {
    if c == 0 then 1 else DistanceBase(c - 1) + Pow2(DistanceExtra(c - 1))
  }

  /** Copies `len` bytes from `dist` bytes back, one by one: source and copy may overlap. */
  function CopyBack(out: seq<byte>, len: nat, dist: nat): seq<byte>
    requires 1 <= dist <= |out|
    decreases len
  {
    if len == 0 then out else CopyBack(out + [out[|out| - dist]], len - 1, dist)
  }

  /** An `n`-bit number and the bits after it, least or most significant bit first. */
  function ReadLow(b: seq<bool>, n: nat): (r: Option<(nat, seq<bool>)>)
    ensures r.Some? ==> |r.value.1| == |b| - n
  {
    if |b| < n then None else Some((FromLow(b[..n]), b[n..]))
  }

  function ReadHigh(b: seq<bool>, n: nat): (r: Option<(nat, seq<bool>)>)
    ensures r.Some? ==> |r.value.1| == |b| - n
  {
    if |b| < n then None else Some((FromHigh(b[..n]), b[n..]))
  }

  /** What follows length code `c`: the match length, the distance and the bits after them. */
  function ReadMatch(c: nat, b: seq<bool>): (r: Option<(nat, nat, seq<bool>)>)
    ensures r.Some? ==> |r.value.2| <= |b| && r.value.1 >= 1
  {
    match ReadLow(b, LengthExtra(c))
    case None => None
    case Some((x, b1)) =>
      match ReadHigh(b1, 5)
      case None => None
      case Some((d, b2)) =>
        match ReadLow(b2, DistanceExtra(d))
        case None => None
        case Some((y, b3)) => if c > 28 || d > 29 then None else Some((LengthBase(c) + x, DistanceBase(d) + y, b3))
  }

  /** The compressed data of a fixed-Huffman block, up to its end-of-block symbol. */
  function FixedBlock(b: seq<bool>, out: seq<byte>): (r: Option<(seq<byte>, seq<bool>)>)
    ensures r.Some? ==> |r.value.1| < |b|
    decreases |b|
  {
    match ReadSymbol(b)
    case None => None
    case Some((n, rest)) =>
      if n == 256 then Some((out, rest))
      else if n < 256 then FixedBlock(rest, out + [n])
      else
        match ReadMatch(n - 257, rest)
        case None => None
        case Some((len, dist, rest')) =>
          if dist > |out| then None else FixedBlock(rest', CopyBack(out, len, dist))
  }

  /** A stored block, RFC 1951 section 3.2.4: to the next byte boundary, LEN, NLEN, LEN bytes. */
  function StoredBlock(b: seq<bool>, out: seq<byte>): (r: Option<(seq<byte>, seq<bool>)>)
    ensures r.Some? ==> |r.value.1| <= |b|
  {
    var a := b[|b| % 8..];
    if |a| < 32 then None else
    var len := FromLow(a[..16]);
    if FromLow(a[16..32]) != 65535 - len || |a| < 32 + 8 * len then None else
    Some((out + BitBytes(a[32..32 + 8 * len]), a[32 + 8 * len..]))
  }

  /** The blocks of a DEFLATE stream up to the one marked final. Dynamic Huffman blocks are refused. */
  function Blocks(b: seq<bool>, out: seq<byte>): (r: Option<(seq<byte>, seq<bool>)>)
    ensures r.Some? ==> |r.value.1| <= |b|
    decreases |b|
  {
    if |b| < 3 then None else
    var kind := FromLow(b[1..3]);
    var block := if kind == 0 then StoredBlock(b[3..], out) else if kind == 1 then FixedBlock(b[3..], out) else None;
    match block
    case None => None
    case Some((out', rest)) => if b[0] then Some((out', rest)) else Blocks(rest, out')
  }

  /** The bytes a zlib stream stands for: header, DEFLATE data, Adler-32 of the result. */
  function Decode(z: seq<byte>): Option<seq<byte>>
  {
    if |z| < 2 || z[0] % 16 != 8 || z[0] / 16 > 7 || (256 * (z[0] as int) + z[1]) % 31 != 0 ||
       z[1] / 32 % 2 == 1 then None
    else
      match Blocks(ByteBits(z[2..]), [])
      case None => None
      case Some((data, rest)) =>
        if rest[|rest| % 8..] == ByteBits(Adler.Trailer(data)) then Some(data) else None
  }

  // ----- the decoder undoes the code tables -----

  lemma SymbolRoundTrip(n: nat, rest: seq<bool>)
    requires n <= 287
    ensures ReadSymbol(SymbolBits(n) + rest) == Some((n, rest))
  {
    var b := SymbolBits(n) + rest;
    if n <= 143 || n >= 280 {
      var v := if n <= 143 then 0x30 + n else 0xC0 + n - 280;
      assert b[..8] == HighBits(v, 8) && b[8..] == rest && b[..7] == HighBits(v / 2, 7);
      FromHighWidth(v, 8);
      FromHighWidth(v / 2, 7);
    } else if n <= 255 {
      var v := 0x190 + n - 144;
      assert HighBits(v, 9)[..8] == HighBits(v / 2, 8);
      assert b[..9] == HighBits(v, 9) && b[9..] == rest && b[..8] == HighBits(v / 2, 8) && b[..7] == HighBits(v / 4, 7);
      FromHighWidth(v, 9);
      FromHighWidth(v / 2, 8);
      FromHighWidth(v / 4, 7);
    } else {
      assert b[..7] == HighBits(n - 256, 7) && b[7..] == rest;
      FromHighWidth(n - 256, 7);
    }
  }

  lemma FromHighWidth(v: nat, n: nat)
    requires (n == 7 && v < 128) || (n == 8 && v < 256) || (n == 9 && v < 512)
    ensures FromHigh(HighBits(v, n)) == v
  {
    assert Pow2(7) == 128;
    FromHighBits(v, n);
  }

  lemma ReadLowRoundTrip(f: seq<bool>, rest: seq<bool>)
    ensures ReadLow(f + rest, |f|) == Some((FromLow(f), rest))
  {
    assert (f + rest)[..|f|] == f && (f + rest)[|f|..] == rest;
  }

  lemma ReadHighRoundTrip(f: seq<bool>, rest: seq<bool>)
    ensures ReadHigh(f + rest, |f|) == Some((FromHigh(f), rest))
  {
    assert (f + rest)[..|f|] == f && (f + rest)[|f|..] == rest;
  }
}
