/** The tables a JPEG decoder makes of the listings in the file's header, after ITU-T T.81 annex C. */
module JpegListing {
  import opened Bits
  import opened JpegDecoder

  /** How many codes each length from 1 to 16 has, and the symbols in the order of their codes. */
  datatype Listing = Listing(counts: seq<nat>, values: seq<nat>)
  {
    /** There are as many symbols as codes, and no length has more codes than it has values left. */
    ghost predicate Valid() {
      |counts| == 16 && |values| == CodesFrom(counts, 1) && Fits(counts, 1, 0)
    }
  }

  function CodesFrom(counts: seq<nat>, len: nat): nat
    requires |counts| == 16 && 1 <= len <= 17
    decreases 17 - len
  {
    if len == 17 then 0 else counts[len - 1] + CodesFrom(counts, len + 1)
  }

  predicate Fits(counts: seq<nat>, len: nat, first: nat)
    requires |counts| == 16 && 1 <= len <= 17
    decreases 17 - len
  {
    len == 17 || (first + counts[len - 1] <= Pow2(len) && Fits(counts, len + 1, 2 * (first + counts[len - 1])))
  }

  /** Code `k` of those of at least `len` bits, the first of which is `first`: its value and its length. */
  function CodeAt(counts: seq<nat>, len: nat, first: nat, k: nat): (nat, nat)
    requires |counts| == 16 && 1 <= len <= 17
    decreases 17 - len
  {
    if len == 17 then (0, 0)
    else if k < counts[len - 1] then (first + k, len)
    else CodeAt(counts, len + 1, 2 * (first + counts[len - 1]), k - counts[len - 1])
  }

  /** Where a symbol is listed. */
  function Place(values: seq<nat>, s: nat): (k: nat)
    ensures if s in values then k < |values| && values[k] == s else k == |values|
  {
    if values == [] || values[0] == s then 0 else 1 + Place(values[1..], s)
  }

  /** The table of a listing: each listed symbol has the code of its place. */
  function TableOf(l: Listing): (t: Table)
    requires |l.counts| == 16
    ensures |t| == 256
  {
    seq(256, s requires 0 <= s < 256 => if s in l.values then CodeAt(l.counts, 1, 0, Place(l.values, s)) else (0, 0))
  }

  // ----- codes of a listing take disjoint shares of the 16-bit strings -----

  /** The 16-bit strings that begin with the code `e` are those from `Low(e)` up to `Low(e) + Span(e)`. */
  function Span(e: (nat, nat)): nat
    requires e.1 <= 16
  {
    Pow2(16 - e.1)
  }

  function Low(e: (nat, nat)): nat
    requires e.1 <= 16
  {
    e.0 * Span(e)
  }

  /** Where `first` begins when it is a code of `len` bits. */
  function Begin(first: nat, len: nat): nat
    requires len <= 17
  {
    if len <= 16 then Low((first, len)) else first / 2
  }

  /** Codes of one length lie one behind the other. */
  lemma SameLength(a: nat, b: nat, len: nat)
    requires a < b && len <= 16
    ensures Low((a, len)) + Span((a, len)) <= Low((b, len))
  {
    Times(a + 1, b, Pow2(16 - len));
    Times(a, a, Pow2(16 - len));
  }

  /** The first code of the next length takes up where the last of this one ends. */
  lemma NextLength(a: nat, len: nat)
    requires len <= 16
    ensures Begin(2 * a, len + 1) == Low((a, len))
  {
    if len < 16 { Scale(a, Pow2(15 - len)); }
  }

  lemma AtLength(counts: seq<nat>, len: nat, first: nat, k: nat)
    requires |counts| == 16 && 1 <= len <= 16 && Fits(counts, len, first) && k < CodesFrom(counts, len)
    ensures var n := counts[len - 1];
      if k < n then CodeAt(counts, len, first, k) == (first + k, len) && first + k < Pow2(len)
      else
        && CodeAt(counts, len, first, k) == CodeAt(counts, len + 1, 2 * (first + n), k - n)
        && Fits(counts, len + 1, 2 * (first + n)) && k - n < CodesFrom(counts, len + 1)
  {
  }

  /** A code has at least `len` bits, lies above all shorter ones, and fits its length. */
  lemma {:induction false} CodeFits(counts: seq<nat>, len: nat, first: nat, k: nat)
    requires |counts| == 16 && 1 <= len <= 17 && Fits(counts, len, first) && k < CodesFrom(counts, len)
    ensures var e := CodeAt(counts, len, first, k);
      len <= e.1 <= 16 && e.0 < Pow2(e.1) && Begin(first, len) <= Low(e)
    decreases 17 - len
  {
    hide Pow2, Low, CodeAt, Fits;
    var n := counts[len - 1];
    AtLength(counts, len, first, k);
    if k < n {
      if k > 0 { SameLength(first, first + k, len); }
    } else {
      CodeFits(counts, len + 1, 2 * (first + n), k - n);
      NextLength(first + n, len);
      if n > 0 { SameLength(first, first + n, len); }
    }
  }

  /** An earlier code's share ends before a later one's begins. */
  lemma {:induction false} CodesAscend(counts: seq<nat>, len: nat, first: nat, k: nat, m: nat)
    requires |counts| == 16 && 1 <= len <= 17 && Fits(counts, len, first) && k < m < CodesFrom(counts, len)
    ensures var e, f := CodeAt(counts, len, first, k), CodeAt(counts, len, first, m);
      e.1 <= 16 && f.1 <= 16 && Low(e) + Span(e) <= Low(f)
    decreases 17 - len
  {
    hide Pow2, Low, Span, CodeAt, Fits;
    var n := counts[len - 1];
    AtLength(counts, len, first, k);
    AtLength(counts, len, first, m);
    if m < n {
      SameLength(first + k, first + m, len);
    } else if k < n {
      CodeFits(counts, len + 1, 2 * (first + n), m - n);
      NextLength(first + n, len);
      SameLength(first + k, first + n, len);
    } else {
      CodesAscend(counts, len + 1, 2 * (first + n), k - n, m - n);
    }
  }

  /** A code that another begins with has the same value in the bits they share. */
  lemma {:induction false} PrefixBounds(a: nat, m: nat, b: nat, n: nat)
    requires m <= n && a < Pow2(m) && b < Pow2(n) && HighBits(a, m) <= HighBits(b, n)
    ensures a * Pow2(n - m) <= b < (a + 1) * Pow2(n - m)
    decreases n
  {
    if m == n {
      FromHighBits(a, m);
      FromHighBits(b, n);
      assert HighBits(a, m) == HighBits(b, n);
    } else {
      assert HighBits(b, n)[..n - 1] == HighBits(b / 2, n - 1);
      assert HighBits(a, m) <= HighBits(b, n)[..n - 1];
      PrefixBounds(a, m, b / 2, n - 1);
      Scale(a, Pow2(n - m - 1));
      Scale(a + 1, Pow2(n - m - 1));
      hide HighBits;
    }
  }

  /** Then the longer code's share lies within the shorter one's. */
  lemma PrefixInside(e: (nat, nat), f: (nat, nat))
    requires e.1 <= f.1 <= 16 && e.0 < Pow2(e.1) && f.0 < Pow2(f.1)
    requires HighBits(e.0, e.1) <= HighBits(f.0, f.1)
    ensures Low(e) <= Low(f) && Low(f) + Span(f) <= Low(e) + Span(e)
  {
    hide HighBits, Pow2;
    var p, q := Pow2(f.1 - e.1), Pow2(16 - f.1);
    PrefixBounds(e.0, e.1, f.0, f.1);
    Pow2Add(f.1 - e.1, 16 - f.1);
    Rearranged(e.0, p, q);
    Rearranged(e.0 + 1, p, q);
    Times(e.0, e.0, p * q);
    Times(e.0 * p, f.0, q);
    Times(f.0 + 1, (e.0 + 1) * p, q);
    Times(f.0, f.0, q);
  }

  lemma Rearranged(a: nat, p: nat, q: nat)
    ensures a * (p * q) == a * p * q
  {
  }

  /** Whatever is listed, as long as the counts fit: the table is a prefix code on the listed symbols. */
  lemma ListedIsPrefixCode(l: Listing, symbols: set<nat>)
    requires l.Valid() && forall s | s in symbols :: s < 256 && s in l.values
    ensures Usable(TableOf(l), symbols)
  {
    hide HighBits, Pow2, CodeAt, Fits, CodesFrom;
    var t := TableOf(l);
    forall s | s in symbols ensures 1 <= t[s].1 <= 16 && t[s].0 < Pow2(t[s].1) {
      CodeFits(l.counts, 1, 0, Place(l.values, s));
    }
    forall s, u | s in symbols && u in symbols && s != u ensures !(Code(t, s) <= Code(t, u)) {
      var k, m := Place(l.values, s), Place(l.values, u);
      if Code(t, s) <= Code(t, u) {
        assert |HighBits(t[s].0, t[s].1)| <= |HighBits(t[u].0, t[u].1)|;
        PrefixInside(t[s], t[u]);
        if k < m { CodesAscend(l.counts, 1, 0, k, m); } else { CodesAscend(l.counts, 1, 0, m, k); }
      }
    }
  }

  // ----- a table is the one its listing gives -----

  ghost predicate Distinct(s: seq<nat>)
  {
    forall i, j | 0 <= i < j < |s| :: s[i] != s[j]
  }

  function Elements(s: seq<nat>): set<nat>
  {
    set x | x in s
  }

  lemma {:induction false} ElementCount(s: seq<nat>)
    ensures |Elements(s)| <= |s| && (Distinct(s) ==> |Elements(s)| == |s|)
  {
    if s != [] {
      ElementCount(s[1..]);
      assert Elements(s) == {s[0]} + Elements(s[1..]);
    }
  }

  /** As many different elements as there are to choose from: all of them. */
  lemma AllChosen(s: seq<nat>, from: seq<nat>)
    requires Distinct(s) && |s| == |from| && forall x | x in s :: x in from
    ensures forall x | x in from :: x in s
  {
    ElementCount(s);
    ElementCount(from);
    forall x | x in from ensures x in s {
      if x !in s { Smaller(Elements(s), Elements(from), x); }
    }
  }

  lemma Smaller(a: set<nat>, b: set<nat>, x: nat)
    requires a <= b && x in b && x !in a
    ensures |a| < |b|
  {
    var c := b - a;
    assert x in c && b == a + c && |c| > 0;
  }

  /** Each code of the listing is the table's for the symbol listed there, which is one of `symbols`. */
  ghost predicate Lists(l: Listing, t: Table, symbols: seq<nat>)
  {
    && l.Valid() && |t| == 256
    && forall k | 0 <= k < |l.values| ::
         var s := l.values[k];
         s < 256 && s in symbols && t[s] == CodeAt(l.counts, 1, 0, k)
  }

  /** A listing of as many codes as a table has symbols gives that table, and lists every symbol. */
  lemma ListingGives(l: Listing, t: Table, symbols: seq<nat>)
    requires Lists(l, t, symbols) && |symbols| == |l.values|
    requires forall s: nat | s < 256 && s !in symbols :: t[s] == (0, 0)
    ensures TableOf(l) == t && forall s | s in symbols :: s in l.values
  {
    hide CodeAt, Fits, CodesFrom, Pow2;
    forall k, m | 0 <= k < m < |l.values| ensures l.values[k] != l.values[m] {
      CodesAscend(l.counts, 1, 0, k, m);
      CodeFits(l.counts, 1, 0, k);
      CodeFits(l.counts, 1, 0, m);
    }
    AllChosen(l.values, symbols);
    forall s: nat | s < 256 ensures TableOf(l)[s] == t[s] {
      var k := Place(l.values, s);
    }
  }

  // ----- the segment that holds the listings (section B.2.4.2) -----

  /** A destination byte (class and number of the table), 16 counts, then the symbols; one table after the other. */
  function Print(tables: seq<(nat, Listing)>): seq<nat>
  {
    if tables == [] then []
    else [tables[0].0] + tables[0].1.counts + tables[0].1.values + Print(tables[1..])
  }

  function Parse(s: seq<nat>): Option<seq<(nat, Listing)>>
  {
    if s == [] then Some([])
    else if |s| < 17 then None
    else
      var counts := s[1..17];
      var end := 17 + CodesFrom(counts, 1);
      if |s| < end then None
      else
        match Parse(s[end..])
        case None => None
        case Some(more) => Some([(s[0], Listing(counts, s[17..end]))] + more)
  }

  lemma ParsesFirst(dest: nat, l: Listing, rest: seq<nat>, s: seq<nat>)
    requires l.Valid() && s == [dest] + l.counts + l.values + rest && Parse(rest).Some?
    ensures Parse(s) == Some([(dest, l)] + Parse(rest).value)
  {
    hide Fits;
    var end := 17 + |l.values|;
    assert s[1..17] == l.counts && s[17..end] == l.values && s[end..] == rest && s[0] == dest;
  }

  lemma {:induction false} ParsesPrinted(tables: seq<(nat, Listing)>)
    requires forall i | 0 <= i < |tables| :: tables[i].1.Valid()
    ensures Parse(Print(tables)) == Some(tables)
  {
    hide Parse, Fits, CodesFrom;
    if tables == [] {
      ParsesNothing();
    } else {
      var (dest, l) := tables[0];
      ParsesPrinted(tables[1..]);
      ParsesFirst(dest, l, Print(tables[1..]), Print(tables));
      assert tables == [(dest, l)] + tables[1..];
    }
  }

  lemma ParsesNothing()
    ensures Parse([]) == Some([])
  {
  }
}
