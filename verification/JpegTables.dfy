/** The Huffman tables the JPEG writer carries and the listings of them that it prints in the header. */
module JpegTables {
  import opened Bits
  import opened JpegDecoder
  import opened JpegListing
  import opened JpegCodes
  import JpegEncoder

  // ----- the writer's tables -----

  const LUMA_DC: seq<(nat, nat)> :=
    [(0, 2), (2, 3), (3, 3), (4, 3), (5, 3), (6, 3), (14, 4), (30, 5), (62, 6), (126, 7), (254, 8), (510, 9)]
  const CHROMA_DC: seq<(nat, nat)> :=
    [(0, 2), (1, 2), (2, 2), (6, 3), (14, 4), (30, 5), (62, 6), (126, 7), (254, 8), (510, 9), (1022, 10), (2046, 11)]

  const LUMA: Tables :=
    Tables(seq(256, s requires 0 <= s < 256 => if s < 12 then LUMA_DC[s] else (0, 0)),
           seq(256, s requires 0 <= s < 256 => LumaAcEntry(s)))

  const CHROMA: Tables :=
    Tables(seq(256, s requires 0 <= s < 256 => if s < 12 then CHROMA_DC[s] else (0, 0)),
           seq(256, s requires 0 <= s < 256 => ChromaAcEntry(s)))

  // ----- the listings in the header -----

  const LUMA_DC_COUNTS: seq<nat> := [0, 1, 5, 1, 1, 1, 1, 1, 1, 0, 0, 0, 0, 0, 0, 0]
  const LUMA_AC_COUNTS: seq<nat> := [0, 2, 1, 3, 3, 2, 4, 3, 5, 5, 4, 4, 0, 0, 1, 125]
  const CHROMA_DC_COUNTS: seq<nat> := [0, 3, 1, 1, 1, 1, 1, 1, 1, 1, 1, 0, 0, 0, 0, 0]
  const CHROMA_AC_COUNTS: seq<nat> := [0, 2, 1, 2, 4, 4, 3, 4, 7, 5, 4, 4, 0, 1, 2, 119]

  const LUMA_DC_LISTING: Listing := Listing(LUMA_DC_COUNTS, seq(12, k requires 0 <= k < 12 => k))
  const CHROMA_DC_LISTING: Listing := Listing(CHROMA_DC_COUNTS, seq(12, k requires 0 <= k < 12 => k))
  const LUMA_AC_LISTING: Listing :=
    Listing(LUMA_AC_COUNTS, seq(162, k requires 0 <= k < 162 => LumaAcValue(k)))
  const CHROMA_AC_LISTING: Listing :=
    Listing(CHROMA_AC_COUNTS, seq(162, k requires 0 <= k < 162 => ChromaAcValue(k)))

  /** The symbols of DC_SYMBOLS and of AC_SYMBOLS one by one. */
  const DC_LIST: seq<nat> := seq(12, s requires 0 <= s < 12 => s)
  const AC_LIST: seq<nat> :=
    seq(162, i requires 0 <= i < 162 => if i < 160 then 16 * (i / 10) + i % 10 + 1 else if i == 160 then 0x00 else 0xF0)

  lemma ListedAt(r: nat, c: nat)
    requires r < 16 && 1 <= c <= 10
    ensures 16 * r + c in AC_LIST
  {
    var i := 10 * r + c - 1;
    assert i / 10 == r && i % 10 == c - 1;
    assert AC_LIST[i] == 16 * r + c;
  }

  lemma InGrid(i: nat)
    requires i < 162
    ensures AC_LIST[i] in AC_SYMBOLS
  {
    var r, c := i / 10, i % 10 + 1;
    assert (16 * r + c) % 16 == c;
  }

  lemma SymbolLists(s: nat)
    ensures (s in DC_SYMBOLS <==> s in DC_LIST) && (s in AC_SYMBOLS <==> s in AC_LIST)
  {
    if s < 12 { assert DC_LIST[s] == s; }
    if s < 256 && 1 <= s % 16 <= 10 { ListedAt(s / 16, s % 16); }
    assert AC_LIST[160] == 0x00 && AC_LIST[161] == 0xF0;
    if i: nat :| i < 162 && AC_LIST[i] == s { InGrid(i); }
  }

  // ----- the codes at the places of a listing -----

  function LumaDcCode(k: nat): (nat, nat)
  {
    if k < 1 then (k, 2) else if k < 6 then (k + 1, 3) else if k < 7 then (k + 8, 4) else
    if k < 8 then (k + 23, 5) else if k < 9 then (k + 54, 6) else if k < 10 then (k + 117, 7) else
    if k < 11 then (k + 244, 8) else if k < 12 then (k + 499, 9) else (0, 0)
  }

  function ChromaDcCode(k: nat): (nat, nat)
  {
    if k < 3 then (k, 2) else if k < 4 then (k + 3, 3) else if k < 5 then (k + 10, 4) else
    if k < 6 then (k + 25, 5) else if k < 7 then (k + 56, 6) else if k < 8 then (k + 119, 7) else
    if k < 9 then (k + 246, 8) else if k < 10 then (k + 501, 9) else if k < 11 then (k + 1012, 10) else
    if k < 12 then (k + 2035, 11) else (0, 0)
  }

  lemma SmallPowers()
    ensures Pow2(1) == 2 && Pow2(2) == 4 && Pow2(3) == 8 && Pow2(4) == 0x10
    ensures Pow2(5) == 0x20 && Pow2(6) == 0x40 && Pow2(7) == 0x80 && Pow2(8) == 0x100
    ensures Pow2(9) == 0x200 && Pow2(10) == 0x400 && Pow2(11) == 0x800 && Pow2(12) == 0x1000
    ensures Pow2(13) == 0x2000 && Pow2(14) == 0x4000 && Pow2(15) == 0x8000 && Pow2(16) == 0x1_0000
  {
  }

  lemma NoneLonger(counts: seq<nat>, first: nat)
    requires |counts| == 16
    ensures Fits(counts, 17, first) && CodesFrom(counts, 17) == 0
  {
  }

  lemma LengthFits(counts: seq<nat>, len: nat, first: nat, n: nat, rest: nat)
    requires |counts| == 16 && 1 <= len <= 16 && counts[len - 1] == n && first + n <= Pow2(len)
    requires CodesFrom(counts, len + 1) == rest && Fits(counts, len + 1, 2 * (first + n))
    ensures CodesFrom(counts, len) == n + rest && Fits(counts, len, first)
  {
  }

  lemma LumaDcFits()
    ensures LUMA_DC_LISTING.Valid()
  {
    hide Fits, CodesFrom, Pow2;
    var c := LUMA_DC_COUNTS;
    SmallPowers();
    NoneLonger(c, 130816);
    LengthFits(c, 16, 65408, 0, 0); LengthFits(c, 15, 32704, 0, 0); LengthFits(c, 14, 16352, 0, 0);
    LengthFits(c, 13, 8176, 0, 0); LengthFits(c, 12, 4088, 0, 0); LengthFits(c, 11, 2044, 0, 0);
    LengthFits(c, 10, 1022, 0, 0); LengthFits(c, 9, 510, 1, 0); LengthFits(c, 8, 254, 1, 1);
    LengthFits(c, 7, 126, 1, 2); LengthFits(c, 6, 62, 1, 3); LengthFits(c, 5, 30, 1, 4); LengthFits(c, 4, 14, 1, 5);
    LengthFits(c, 3, 2, 5, 6); LengthFits(c, 2, 0, 1, 11); LengthFits(c, 1, 0, 0, 12);
  }

  lemma LumaAcFits()
    ensures LUMA_AC_LISTING.Valid()
  {
    hide Fits, CodesFrom, Pow2;
    var c := LUMA_AC_COUNTS;
    SmallPowers();
    NoneLonger(c, 131070);
    LengthFits(c, 16, 65410, 125, 0); LengthFits(c, 15, 32704, 1, 125); LengthFits(c, 14, 16352, 0, 126);
    LengthFits(c, 13, 8176, 0, 126); LengthFits(c, 12, 4084, 4, 126); LengthFits(c, 11, 2038, 4, 130);
    LengthFits(c, 10, 1014, 5, 134); LengthFits(c, 9, 502, 5, 139); LengthFits(c, 8, 248, 3, 144);
    LengthFits(c, 7, 120, 4, 147); LengthFits(c, 6, 58, 2, 151); LengthFits(c, 5, 26, 3, 153);
    LengthFits(c, 4, 10, 3, 156); LengthFits(c, 3, 4, 1, 159); LengthFits(c, 2, 0, 2, 160);
    LengthFits(c, 1, 0, 0, 162);
  }

  lemma ChromaDcFits()
    ensures CHROMA_DC_LISTING.Valid()
  {
    hide Fits, CodesFrom, Pow2;
    var c := CHROMA_DC_COUNTS;
    SmallPowers();
    NoneLonger(c, 131008);
    LengthFits(c, 16, 65504, 0, 0); LengthFits(c, 15, 32752, 0, 0); LengthFits(c, 14, 16376, 0, 0);
    LengthFits(c, 13, 8188, 0, 0); LengthFits(c, 12, 4094, 0, 0); LengthFits(c, 11, 2046, 1, 0);
    LengthFits(c, 10, 1022, 1, 1); LengthFits(c, 9, 510, 1, 2); LengthFits(c, 8, 254, 1, 3);
    LengthFits(c, 7, 126, 1, 4); LengthFits(c, 6, 62, 1, 5); LengthFits(c, 5, 30, 1, 6); LengthFits(c, 4, 14, 1, 7);
    LengthFits(c, 3, 6, 1, 8); LengthFits(c, 2, 0, 3, 9); LengthFits(c, 1, 0, 0, 12);
  }

  lemma ChromaAcFits()
    ensures CHROMA_AC_LISTING.Valid()
  {
    hide Fits, CodesFrom, Pow2;
    var c := CHROMA_AC_COUNTS;
    SmallPowers();
    NoneLonger(c, 131070);
    LengthFits(c, 16, 65416, 119, 0); LengthFits(c, 15, 32706, 2, 119); LengthFits(c, 14, 16352, 1, 121);
    LengthFits(c, 13, 8176, 0, 122); LengthFits(c, 12, 4084, 4, 122); LengthFits(c, 11, 2038, 4, 126);
    LengthFits(c, 10, 1014, 5, 130); LengthFits(c, 9, 500, 7, 135); LengthFits(c, 8, 246, 4, 142);
    LengthFits(c, 7, 120, 3, 146); LengthFits(c, 6, 56, 4, 149); LengthFits(c, 5, 24, 4, 153);
    LengthFits(c, 4, 10, 2, 157); LengthFits(c, 3, 4, 1, 159); LengthFits(c, 2, 0, 2, 160);
    LengthFits(c, 1, 0, 0, 162);
  }

  lemma OneLength(counts: seq<nat>, len: nat, first: nat, k: int, n: nat)
    requires |counts| == 16 && 1 <= len <= 16 && counts[len - 1] == n
    ensures k >= n ==> CodeAt(counts, len, first, k) == CodeAt(counts, len + 1, 2 * (first + n), k - n)
    ensures 0 <= k < n ==> CodeAt(counts, len, first, k) == (first + k, len)
  {
  }

  lemma LumaDcCodes(k: nat)
    requires k < 12
    ensures CodeAt(LUMA_DC_COUNTS, 1, 0, k) == LumaDcCode(k)
  {
    hide CodeAt;
    var c := LUMA_DC_COUNTS;
    OneLength(c, 1, 0, k, 0); OneLength(c, 2, 0, k, 1); OneLength(c, 3, 2, k - 1, 5); OneLength(c, 4, 14, k - 6, 1);
    OneLength(c, 5, 30, k - 7, 1); OneLength(c, 6, 62, k - 8, 1); OneLength(c, 7, 126, k - 9, 1);
    OneLength(c, 8, 254, k - 10, 1); OneLength(c, 9, 510, k - 11, 1);
  }

  lemma LumaAcCodes(k: nat)
    requires k < 162
    ensures CodeAt(LUMA_AC_COUNTS, 1, 0, k) == LumaAcCode(k)
  {
    hide CodeAt;
    var c := LUMA_AC_COUNTS;
    OneLength(c, 1, 0, k, 0); OneLength(c, 2, 0, k, 2); OneLength(c, 3, 4, k - 2, 1); OneLength(c, 4, 10, k - 3, 3);
    OneLength(c, 5, 26, k - 6, 3); OneLength(c, 6, 58, k - 9, 2); OneLength(c, 7, 120, k - 11, 4);
    OneLength(c, 8, 248, k - 15, 3); OneLength(c, 9, 502, k - 18, 5); OneLength(c, 10, 1014, k - 23, 5);
    OneLength(c, 11, 2038, k - 28, 4); OneLength(c, 12, 4084, k - 32, 4); OneLength(c, 13, 8176, k - 36, 0);
    OneLength(c, 14, 16352, k - 36, 0); OneLength(c, 15, 32704, k - 36, 1); OneLength(c, 16, 65410, k - 37, 125);
  }

  lemma ChromaDcCodes(k: nat)
    requires k < 12
    ensures CodeAt(CHROMA_DC_COUNTS, 1, 0, k) == ChromaDcCode(k)
  {
    hide CodeAt;
    var c := CHROMA_DC_COUNTS;
    OneLength(c, 1, 0, k, 0); OneLength(c, 2, 0, k, 3); OneLength(c, 3, 6, k - 3, 1); OneLength(c, 4, 14, k - 4, 1);
    OneLength(c, 5, 30, k - 5, 1); OneLength(c, 6, 62, k - 6, 1); OneLength(c, 7, 126, k - 7, 1);
    OneLength(c, 8, 254, k - 8, 1); OneLength(c, 9, 510, k - 9, 1); OneLength(c, 10, 1022, k - 10, 1);
    OneLength(c, 11, 2046, k - 11, 1);
  }

  lemma ChromaAcCodes(k: nat)
    requires k < 162
    ensures CodeAt(CHROMA_AC_COUNTS, 1, 0, k) == ChromaAcCode(k)
  {
    hide CodeAt;
    var c := CHROMA_AC_COUNTS;
    OneLength(c, 1, 0, k, 0); OneLength(c, 2, 0, k, 2); OneLength(c, 3, 4, k - 2, 1); OneLength(c, 4, 10, k - 3, 2);
    OneLength(c, 5, 24, k - 5, 4); OneLength(c, 6, 56, k - 9, 4); OneLength(c, 7, 120, k - 13, 3);
    OneLength(c, 8, 246, k - 16, 4); OneLength(c, 9, 500, k - 20, 7); OneLength(c, 10, 1014, k - 27, 5);
    OneLength(c, 11, 2038, k - 32, 4); OneLength(c, 12, 4084, k - 36, 4); OneLength(c, 13, 8176, k - 40, 0);
    OneLength(c, 14, 16352, k - 40, 1); OneLength(c, 15, 32706, k - 41, 2); OneLength(c, 16, 65416, k - 43, 119);
  }

  // ----- the writer's tables are those of the listings -----

  lemma LumaAcListing()
    ensures LUMA_AC_LISTING.Valid() && TableOf(LUMA_AC_LISTING) == LUMA.ac
    ensures forall s | s in AC_SYMBOLS :: s in LUMA_AC_LISTING.values
  {
    hide CodeAt, Fits, CodesFrom, Pow2, LumaAcEntry, LumaAcValue;
    LumaAcFits();
    forall k: nat | k < 162
      ensures var s := LUMA_AC_LISTING.values[k];
        s < 256 && s in AC_LIST && LUMA.ac[s] == CodeAt(LUMA_AC_COUNTS, 1, 0, k)
    {
      LumaAcCodes(k);
      LumaAcListed(k);
      assert LumaAcCode(k) != (0, 0);
      LumaAcUsed(LumaAcValue(k));
      SymbolLists(LumaAcValue(k));
    }
    forall s: nat | s < 256 && s !in AC_LIST ensures LUMA.ac[s] == (0, 0) {
      SymbolLists(s);
      if LumaAcEntry(s) != (0, 0) { LumaAcUsed(s); }
    }
    ListingGives(LUMA_AC_LISTING, LUMA.ac, AC_LIST);
    forall s | s in AC_SYMBOLS ensures s in LUMA_AC_LISTING.values { SymbolLists(s); }
  }

  lemma ChromaAcListing()
    ensures CHROMA_AC_LISTING.Valid() && TableOf(CHROMA_AC_LISTING) == CHROMA.ac
    ensures forall s | s in AC_SYMBOLS :: s in CHROMA_AC_LISTING.values
  {
    hide CodeAt, Fits, CodesFrom, Pow2, ChromaAcEntry, ChromaAcValue;
    ChromaAcFits();
    forall k: nat | k < 162
      ensures var s := CHROMA_AC_LISTING.values[k];
        s < 256 && s in AC_LIST && CHROMA.ac[s] == CodeAt(CHROMA_AC_COUNTS, 1, 0, k)
    {
      ChromaAcCodes(k);
      ChromaAcListed(k);
      assert ChromaAcCode(k) != (0, 0);
      ChromaAcUsed(ChromaAcValue(k));
      SymbolLists(ChromaAcValue(k));
    }
    forall s: nat | s < 256 && s !in AC_LIST ensures CHROMA.ac[s] == (0, 0) {
      SymbolLists(s);
      if ChromaAcEntry(s) != (0, 0) { ChromaAcUsed(s); }
    }
    ListingGives(CHROMA_AC_LISTING, CHROMA.ac, AC_LIST);
    forall s | s in AC_SYMBOLS ensures s in CHROMA_AC_LISTING.values { SymbolLists(s); }
  }

  lemma LumaDcListing()
    ensures LUMA_DC_LISTING.Valid() && TableOf(LUMA_DC_LISTING) == LUMA.dc
    ensures forall s | s in DC_SYMBOLS :: s in LUMA_DC_LISTING.values
  {
    hide CodeAt, Fits, CodesFrom, Pow2;
    LumaDcFits();
    forall k: nat | k < 12 ensures LUMA.dc[k] == CodeAt(LUMA_DC_COUNTS, 1, 0, k) { LumaDcCodes(k); }
    ListingGives(LUMA_DC_LISTING, LUMA.dc, DC_LIST);
    forall s | s in DC_SYMBOLS ensures s in LUMA_DC_LISTING.values { SymbolLists(s); }
  }

  lemma ChromaDcListing()
    ensures CHROMA_DC_LISTING.Valid() && TableOf(CHROMA_DC_LISTING) == CHROMA.dc
    ensures forall s | s in DC_SYMBOLS :: s in CHROMA_DC_LISTING.values
  {
    hide CodeAt, Fits, CodesFrom, Pow2;
    ChromaDcFits();
    forall k: nat | k < 12 ensures CHROMA.dc[k] == CodeAt(CHROMA_DC_COUNTS, 1, 0, k) { ChromaDcCodes(k); }
    ListingGives(CHROMA_DC_LISTING, CHROMA.dc, DC_LIST);
    forall s | s in DC_SYMBOLS ensures s in CHROMA_DC_LISTING.values { SymbolLists(s); }
  }

  /** The tables of the header with their destination bytes. */
  const HEADER: seq<(nat, Listing)> :=
    [(0x00, LUMA_DC_LISTING), (0x10, LUMA_AC_LISTING), (0x01, CHROMA_DC_LISTING), (0x11, CHROMA_AC_LISTING)]

  /** Their segment has the length that the writer states, and a decoder reads the four listings from it. */
  lemma HeaderParses()
    ensures |Print(HEADER)| + 2 == 0x1A2 && Parse(Print(HEADER)) == Some(HEADER)
  {
    hide CodeAt, CodesFrom, Fits, LumaAcEntry, ChromaAcEntry, LumaAcValue, ChromaAcValue, Parse, Print;
    LumaDcFits();
    LumaAcFits();
    ChromaDcFits();
    ChromaAcFits();
    FourPrinted((0x00, LUMA_DC_LISTING), (0x10, LUMA_AC_LISTING), (0x01, CHROMA_DC_LISTING), (0x11, CHROMA_AC_LISTING));
  }

  lemma FourPrinted(a: (nat, Listing), b: (nat, Listing), c: (nat, Listing), d: (nat, Listing))
    requires a.1.Valid() && b.1.Valid() && c.1.Valid() && d.1.Valid()
    ensures |Print([a, b, c, d])| == 68 + |a.1.values| + |b.1.values| + |c.1.values| + |d.1.values|
    ensures Parse(Print([a, b, c, d])) == Some([a, b, c, d])
  {
    hide Parse, Fits, CodesFrom;
    ParsesPrinted([a, b, c, d]);
    assert |Print([d])| == 17 + |d.1.values|;
    assert [a, b, c, d][1..] == [b, c, d] && [b, c, d][1..] == [c, d] && [c, d][1..] == [d];
    assert |Print([c, d])| == 17 + |c.1.values| + |Print([d])|;
    assert |Print([b, c, d])| == 17 + |b.1.values| + |Print([c, d])|;
  }

  /** What a decoder makes of the header: the tables of the listings, prefix codes on every symbol of a scan. */
  lemma HeaderGivesTables()
    ensures LUMA == Tables(TableOf(LUMA_DC_LISTING), TableOf(LUMA_AC_LISTING)) && LUMA.Valid()
    ensures CHROMA == Tables(TableOf(CHROMA_DC_LISTING), TableOf(CHROMA_AC_LISTING)) && CHROMA.Valid()
  {
    hide TableOf, Usable, CodeAt, CodesFrom, Fits, Place, LumaAcEntry, ChromaAcEntry, LumaAcValue, ChromaAcValue;
    LumaDcListing();
    LumaAcListing();
    ChromaDcListing();
    ChromaAcListing();
    ListedIsPrefixCode(LUMA_DC_LISTING, DC_SYMBOLS);
    ListedIsPrefixCode(LUMA_AC_LISTING, AC_SYMBOLS);
    ListedIsPrefixCode(CHROMA_DC_LISTING, DC_SYMBOLS);
    ListedIsPrefixCode(CHROMA_AC_LISTING, AC_SYMBOLS);
  }

  /** The scan header: three components, each with its number and the tables it takes, then the whole spectrum. */
  const SCAN_HEADER: seq<byte> := [0xFF, 0xDA, 0, 0xC, 3, 1, 0, 2, 0x11, 3, 0x11, 0, 0x3F, 0]

  /** The listing with destination byte `dest`. */
  function Listed(header: seq<(nat, Listing)>, dest: nat): Option<Listing>
  {
    if header == [] then None else if header[0].0 == dest then Some(header[0].1) else Listed(header[1..], dest)
  }

  /** Section B.2.3: component `c` takes the DC table of the high and the AC table of the low half of its byte. */
  lemma ScanHeaderSelects(c: nat)
    requires c < 3
    ensures SCAN_HEADER[4] == 3 && SCAN_HEADER[5 + 2 * c] == c + 1
    ensures var b := SCAN_HEADER[6 + 2 * c]; var dc, ac := Listed(HEADER, b / 16), Listed(HEADER, 0x10 + b % 16);
      && dc.Some? && ac.Some? && |dc.value.counts| == 16 && |ac.value.counts| == 16
      && Of(LUMA, CHROMA, c) == Tables(TableOf(dc.value), TableOf(ac.value))
  {
    hide TableOf, Listed, LumaAcEntry, ChromaAcEntry, LumaAcValue, ChromaAcValue;
    HeaderGivesTables();
    ListedAs(HEADER, 0);
    ListedAs(HEADER, 1);
    ListedAs(HEADER, 2);
    ListedAs(HEADER, 3);
  }

  lemma {:induction false} ListedAs(header: seq<(nat, Listing)>, i: nat)
    requires i < |header| && forall j | 0 <= j < i :: header[j].0 != header[i].0
    ensures Listed(header, header[i].0) == Some(header[i].1)
  {
    if i > 0 { ListedAs(header[1..], i - 1); }
  }

  /** The scan as the writer makes it with its own tables, read back with those of the header. */
  method WriteScan(comps: seq<nat>, dus: seq<seq<int>>) returns (out: seq<byte>)
    requires var start := JpegEncoder.ScanState(comps, [0, 0, 0]);
      start.Valid() && JpegEncoder.ScanInRange(start, dus)
    ensures var luma := Tables(TableOf(LUMA_DC_LISTING), TableOf(LUMA_AC_LISTING));
      var chroma := Tables(TableOf(CHROMA_DC_LISTING), TableOf(CHROMA_AC_LISTING));
      && luma.Valid() && chroma.Valid()
      && ReadScan(luma, chroma, HighByteBits(Unstuff(out)), comps, [0, 0, 0]) == Some(dus)
    ensures |out| >= 2 && JpegEncoder.Stuffed(out[..|out| - 2]) && out[|out| - 2..] == [0xFF, 0xD9]
  {
    HeaderGivesTables();
    hide *;
    out := JpegEncoder.EncodeScan(LUMA, CHROMA, comps, dus);
  }
}
