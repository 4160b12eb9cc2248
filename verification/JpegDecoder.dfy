/** Baseline entropy decoding of a JPEG scan, after ITU-T T.81 sections F.2.2 and B.1.1.5. */
module JpegDecoder {
  import opened Bits

  /** A Huffman table: entry `s` holds the code of symbol `s` and its length, length 0 when unused. */
  type Table = seq<(nat, nat)>

  function Code(t: Table, s: nat): seq<bool>
    requires s < |t|
  {
    HighBits(t[s].0, t[s].1)
  }

  /** Every symbol of `symbols` has a code of 1 to 16 bits, and none is a prefix of another. */
  ghost predicate Usable(t: Table, symbols: set<nat>)
  {
    |t| == 256 && (forall s | s in symbols :: s < 256 && 1 <= t[s].1 <= 16 && t[s].0 < Pow2(t[s].1)) &&
    (forall s, u | s in symbols && u in symbols && s != u :: !(Code(t, s) <= Code(t, u)))
  }

  ghost predicate Starts(t: Table, symbols: set<nat>, b: seq<bool>, s: nat)
    requires Usable(t, symbols)
  {
    s in symbols && Code(t, s) <= b
  }

  /** DECODE, section F.2.2.3: the symbol whose code the bits begin with, and the bits after it. */
  ghost function ReadSymbol(t: Table, symbols: set<nat>, b: seq<bool>): (r: Option<(nat, seq<bool>)>)
    requires Usable(t, symbols)
    ensures r.Some? ==> r.value.0 in symbols && |r.value.1| < |b|
  {
    if s :| Starts(t, symbols, b, s) then Some((s, b[|Code(t, s)|..])) else None
  }

  lemma SymbolRoundTrip(t: Table, symbols: set<nat>, s: nat, rest: seq<bool>)
    requires Usable(t, symbols) && s in symbols
    ensures ReadSymbol(t, symbols, Code(t, s) + rest) == Some((s, rest))
  {
    var b := Code(t, s) + rest;
    assert Starts(t, symbols, b, s) && b[|Code(t, s)|..] == rest;
    forall u | Starts(t, symbols, b, u) ensures u == s {
      OnePrefixesOther(Code(t, s), Code(t, u), b);
    }
  }

  lemma OnePrefixesOther(c: seq<bool>, d: seq<bool>, b: seq<bool>)
    requires c <= b && d <= b
    ensures c <= d || d <= c
  {
  }

  const DC_SYMBOLS: set<nat> := set s: nat | s <= 11
  const AC_SYMBOLS: set<nat> := set s: nat | s <= 0xFF && (s == 0x00 || s == 0xF0 || 1 <= s % 16 <= 10)

  /** RECEIVE, section F.2.2.4: `n` bits, the first one the most significant. */
  function Receive(b: seq<bool>, n: nat): (r: Option<(nat, seq<bool>)>)
    ensures r.Some? ==> |r.value.1| == |b| - n
  {
    if |b| < n then None else Some((FromHigh(b[..n]), b[n..]))
  }

  /** EXTEND, figure F.12. */
  function Extend(v: nat, n: nat): int
  {
    if n > 0 && v < Pow2(n - 1) then v - Pow2(n) + 1 else v
  }

  function Zeros(n: nat): (r: seq<int>)
    ensures |r| == n
  {
    seq(n, _ => 0)
  }

  datatype Tables = Tables(dc: Table, ac: Table)
  {
    ghost predicate Valid() {
      Usable(dc, DC_SYMBOLS) && Usable(ac, AC_SYMBOLS)
    }
  }

  /** The DC difference of a block, section F.2.2.1. */
  ghost function ReadDiff(t: Tables, b: seq<bool>): (r: Option<(int, seq<bool>)>)
    requires t.Valid()
    ensures r.Some? ==> |r.value.1| < |b|
  {
    match ReadSymbol(t.dc, DC_SYMBOLS, b)
    case None => None
    case Some((n, b1)) =>
      match Receive(b1, n)
      case None => None
      case Some((v, b2)) => Some((Extend(v, n), b2))
  }

  /** The AC coefficients in zig-zag order after those in `zz`, figure F.13. */
  ghost function ReadAc(t: Tables, b: seq<bool>, zz: seq<int>): (r: Option<(seq<int>, seq<bool>)>)
    requires t.Valid() && |zz| <= 64
    ensures r.Some? ==> |r.value.0| == 64 && |r.value.1| <= |b|
    decreases 64 - |zz|
  {
    if |zz| == 64 then Some((zz, b)) else
    match ReadSymbol(t.ac, AC_SYMBOLS, b)
    case None => None
    case Some((rs, b1)) =>
      var run, size := rs / 16, rs % 16;
      if size == 0 then
        if run < 15 then Some((zz + Zeros(64 - |zz|), b1))
        else if |zz| + 16 > 63 then None
        else ReadAc(t, b1, zz + Zeros(16))
      else if |zz| + run > 63 then None
      else
        match Receive(b1, size)
        case None => None
        case Some((v, b2)) => ReadAc(t, b2, zz + Zeros(run) + [Extend(v, size)])
  }

  /** One 8x8 block, its coefficients in zig-zag order, given the DC prediction. */
  ghost function ReadBlock(t: Tables, b: seq<bool>, pred: int): (r: Option<(seq<int>, seq<bool>)>)
    requires t.Valid()
    ensures r.Some? ==> |r.value.0| == 64 && |r.value.1| <= |b|
  {
    match ReadDiff(t, b)
    case None => None
    case Some((diff, b1)) => ReadAc(t, b1, [pred + diff])
  }

  /** The tables of luminance (component 0) and chrominance. */
  function Of(luma: Tables, chroma: Tables, c: nat): Tables
  {
    if c == 0 then luma else chroma
  }

  /** The blocks of a scan whose components are `comps`; `pred` holds the last DC value of each component. */
  ghost function ReadScan(luma: Tables, chroma: Tables, b: seq<bool>, comps: seq<nat>, pred: seq<int>)
    : Option<seq<seq<int>>>
    requires luma.Valid() && chroma.Valid() && |pred| == 3 && forall i | 0 <= i < |comps| :: comps[i] < 3
    decreases |comps|
  {
    if comps == [] then Some([]) else
    var c := comps[0];
    match ReadBlock(Of(luma, chroma, c), b, pred[c])
    case None => None
    case Some((du, b1)) =>
      match ReadScan(luma, chroma, b1, comps[1..], pred[c := du[0]])
      case None => None
      case Some(more) => Some([du] + more)
  }

  /** Entropy-coded bytes up to the next marker, with the zero byte stuffed after each 0xFF removed. */
  function Unstuff(s: seq<byte>): seq<byte>
  {
    if s == [] then []
    else if s[0] != 0xFF then [s[0]] + Unstuff(s[1..])
    else if |s| == 1 || s[1] != 0 then []
    else [0xFF] + Unstuff(s[2..])
  }

  /** Bytes as bits, most significant bit first. */
  function HighByteBits(s: seq<byte>): seq<bool>
  {
    if s == [] then [] else HighBits(s[0], 8) + HighByteBits(s[1..])
  }
}
