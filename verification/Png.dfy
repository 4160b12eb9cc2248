/** A PNG's image data: every row filtered, then compressed; and the way back. */
module Png {
  import opened Bits
  import opened PngFilter
  import Inflate
  import Zlib

  // ----- what a decoder reads -----

  /** The rows of `len` bytes, of pixels of `n` bytes, in inflated image data: each behind its filter byte. */
  function Rows(filt: seq<byte>, len: nat, n: nat): (r: Option<seq<seq<byte>>>)
    requires n > 0
    ensures r.Some? ==> forall k | 0 <= k < |r.value| :: |r.value[k]| == len
    decreases |filt|
  {
    if filt == [] then Some([])
    else if |filt| < len + 1 then None
    else
      var at := |filt| - len - 1;
      var front := Rows(filt[..at], len, n);
      if front.None? || filt[at] > 4 then None
      else
        var prior := if front.value == [] then Zeros(len) else front.value[|front.value| - 1];
        Some(front.value + [Unfiltered(filt[at], n, filt[at + 1..], prior)])
  }

  // ----- what is written -----

  /** The first rows of the image, filtered by `types`. */
  function Lines(img: Image, types: seq<Filter>): seq<byte>
    requires img.Ok() && |types| <= img.height
  {
    if types == [] then []
    else
      var y := |types| - 1;
      Lines(img, types[..y]) + ([types[y]] + Filtered(types[y], img.n, img.Row(y), img.Prior(y)))
  }

  function ImageRows(img: Image, k: nat): (r: seq<seq<byte>>)
    requires img.Ok() && k <= img.height
    ensures |r| == k
  {
    seq(k, y requires 0 <= y < k => img.Row(y))
  }

  /** Reading back the filtered rows gives every byte of every row, whatever the filters. */
  lemma {:induction false} LinesRoundTrip(img: Image, types: seq<Filter>)
    requires img.Ok() && |types| <= img.height
    ensures Rows(Lines(img, types), img.Length(), img.n) == Some(ImageRows(img, |types|))
  {
    hide Rows, Lines, ImageRows, Image.Ok, Image.Length;
    if types == [] {
      NoRows(img);
    } else {
      LinesRoundTrip(img, types[..|types| - 1]);
      LinesStep(img, types, |types| - 1);
    }
  }

  lemma NoRows(img: Image)
    requires img.Ok()
    ensures Rows(Lines(img, []), img.Length(), img.n) == Some(ImageRows(img, 0))
  {
  }

  lemma LinesStep(img: Image, types: seq<Filter>, y: nat)
    requires img.Ok() && |types| == y + 1 <= img.height
    requires Rows(Lines(img, types[..y]), img.Length(), img.n) == Some(ImageRows(img, y))
    ensures Rows(Lines(img, types), img.Length(), img.n) == Some(ImageRows(img, y + 1))
  {
    hide Rows, Unfiltered, Filtered, Image.Row, Image.Prior, Image.Length, Image.Ok, ImageRows;
    RowsGrow(img, y);
    RowBack(img, types[y], y);
    var line := Filtered(types[y], img.n, img.Row(y), img.Prior(y));
    AppendRow(Lines(img, types[..y]), types[y], line, img.Length(), img.n);
  }

  lemma RowsGrow(img: Image, y: nat)
    requires img.Ok() && y < img.height
    ensures img.n > 0 && ImageRows(img, y + 1) == ImageRows(img, y) + [img.Row(y)]
    ensures img.Prior(y) == if ImageRows(img, y) == [] then Zeros(img.Length()) else ImageRows(img, y)[y - 1]
  {
  }

  lemma RowBack(img: Image, t: Filter, y: nat)
    requires img.Ok() && y < img.height
    ensures Unfiltered(t, img.n, Filtered(t, img.n, img.Row(y), img.Prior(y)), img.Prior(y)) == img.Row(y)
  {
    var line := Filtered(t, img.n, img.Row(y), img.Prior(y));
    RowRoundTrip(t, img.n, img.Row(y), img.Prior(y), |line|);
    assert line[..|line|] == line && img.Row(y)[..|line|] == img.Row(y);
  }

  lemma AppendRow(a: seq<byte>, t: Filter, line: seq<byte>, len: nat, n: nat)
    requires n > 0 && |line| == len && Rows(a, len, n).Some?
    ensures var front := Rows(a, len, n).value;
      Rows(a + ([t] + line), len, n)
      == Some(front + [Unfiltered(t, n, line, if front == [] then Zeros(len) else front[|front| - 1])])
  {
    var s := a + ([t] + line);
    assert s[..|a|] == a && s[|a|] == t && s[|a| + 1..] == line;
  }

  /** Where in the caller's memory byte `i` of row `y` of the file comes from. */
  lemma RowIs(given: Image, y: nat, i: nat)
    requires given.Spaced().Ok() && y < given.height && i < given.width * given.n
    ensures var img := given.Spaced();
      var stride := if given.stride == 0 then given.width * given.n else given.stride;
      var at := given.base + stride * (if given.flip then given.height - 1 - y else y) + i;
      && img.Length() == given.width * given.n && img.height == given.height && img.n == given.n
      && 0 <= at < |given.pixels| && ImageRows(img, img.height)[y][i] == given.pixels[at]
  {
    var img := given.Spaced();
    img.StartsInside(y);
    assert ImageRows(img, img.height)[y] == img.Row(y);
    hide Image.Ok, ImageRows;
  }

  // ----- choosing a filter -----

  /** The size of a filtered byte taken as signed. */
  function Size(b: byte): (size: nat)
    ensures size <= 0x80 && (size == b || size == 0x100 - b)
  {
    if b < 0x80 then b else 0x100 - b as nat
  }

  function Estimate(line: seq<byte>): (e: nat)
    ensures e <= 0x80 * |line|
  {
    if line == [] then 0 else Estimate(line[..|line| - 1]) + Size(line[|line| - 1])
  }

  /** Estimates are sums: that of one byte is its size, and those of two parts add up. */
  lemma {:induction false} EstimateAdds(a: seq<byte>, b: seq<byte>)
    ensures |a| == 1 ==> Estimate(a) == Size(a[0])
    ensures Estimate(a + b) == Estimate(a) + Estimate(b)
  {
    if |a| == 1 { assert a[..0] == []; }
    if b == [] {
      assert a + b == a;
    } else {
      assert (a + b)[..|a + b| - 1] == a + b[..|b| - 1];
      EstimateAdds(a, b[..|b| - 1]);
    }
  }

  method EstimateOf(line: array<byte>) returns (est: nat)
    ensures est == Estimate(line[..])
  {
    est := 0;
    for i := 0 to line.Length
      invariant est == Estimate(line[..i])
    {
      assert line[..i + 1][..i] == line[..i];
      est := est + Size(line[i]);
    }
    assert line[..line.Length] == line[..];
  }

  ghost function EstimateFor(img: Image, y: nat, t: Filter): nat
    requires img.Ok() && y < img.height
  {
    Estimate(Filtered(t, img.n, img.Row(y), img.Prior(y)))
  }

  /** `t` is the first of the filters whose estimate for row `y` is the least. */
  ghost predicate Best(img: Image, y: nat, t: Filter)
    requires img.Ok() && y < img.height
  {
    forall u: Filter ::
      if u < t then EstimateFor(img, y, t) < EstimateFor(img, y, u)
      else EstimateFor(img, y, t) <= EstimateFor(img, y, u)
  }

  /** Tries every filter on row `y`, and leaves the best one's line in `line`. */
  method BestLine(img: Image, y: nat, line: array<byte>) returns (filterType: Filter)
    requires img.Ok() && y < img.height && line.Length == img.Length()
    modifies line
    ensures line[..] == Filtered(filterType, img.n, img.Row(y), img.Prior(y))
    ensures img.Length() < 0x100_0000 ==> Best(img, y, filterType)
  {
    hide Filtered, Estimate, Image.Row, Image.Prior;
    var bestFilter: Filter, bestVal: nat := 0, 0x7FFF_FFFF;
    for t: nat := 0 to 5
      invariant (bestFilter == 0 || bestFilter < t) && bestVal <= 0x7FFF_FFFF
      invariant bestVal < 0x7FFF_FFFF ==> bestVal == EstimateFor(img, y, bestFilter)
      invariant forall u: Filter | u < t :: bestVal <= EstimateFor(img, y, u)
      invariant forall u: Filter | u < bestFilter :: bestVal < EstimateFor(img, y, u)
    {
      EncodePngLine(img, y, t, line);
      var est := EstimateOf(line);
      assert est == EstimateFor(img, y, t);
      if est < bestVal {
        bestVal := est;
        bestFilter := t;
      }
    }
    EncodePngLine(img, y, bestFilter, line);
    filterType := bestFilter;
    assert EstimateFor(img, y, 0) <= 0x80 * img.Length();
  }

  /** The row loop of `stbi_write_png_to_mem`: `force` is a filter for every row, or none for the best of each. */
  method FilterImage(given: Image, force: int) returns (filt: seq<byte>, ghost types: seq<Filter>)
    requires given.Spaced().Ok()
    ensures var img := given.Spaced();
      && |types| == img.height && filt == Lines(img, types)
      && Rows(filt, img.Length(), img.n) == Some(ImageRows(img, img.height))
      && (0 <= force < 5 ==> forall t | t in types :: t == force)
      && (!(0 <= force < 5) && img.Length() < 0x100_0000 ==> forall y | 0 <= y < |types| :: Best(img, y, types[y]))
  {
    var img := given.Spaced();
    hide Image.Spaced, Filtered, Best, Image.Row, Image.Prior, Rows, ImageRows;
    var forced := if force >= 5 then -1 else force;
    var line := new byte[img.Length()];
    filt, types := [], [];
    for j := 0 to img.height
      invariant |types| == j && filt == Lines(img, types)
      invariant forced > -1 ==> forall t | t in types :: t == forced
      invariant forced <= -1 && img.Length() < 0x100_0000 ==> forall y | 0 <= y < |types| :: Best(img, y, types[y])
    {
      var filterType: Filter;
      if forced > -1 {
        filterType := forced;
        EncodePngLine(img, j, filterType, line);
      } else {
        filterType := BestLine(img, j, line);
      }
      assert (types + [filterType])[..j] == types;
      filt := filt + ([filterType] + line[..]);
      types := types + [filterType];
    }
    LinesRoundTrip(img, types);
  }

  /** The contents of the IDAT chunk: inflating and un-filtering them gives every pixel of the image back. */
  method ImageData(given: Image, force: int, level: int) returns (zlib: seq<byte>)
    requires given.Spaced().Ok() && given.height > 0
    ensures Inflate.Decode(zlib).Some?
    ensures var img := given.Spaced();
      Rows(Inflate.Decode(zlib).value, img.Length(), img.n) == Some(ImageRows(img, img.height))
  {
    hide Rows, Inflate.Decode, Image.Ok;
    ghost var types;
    var filt;
    filt, types := FilterImage(given, force);
    zlib := Zlib.Compress(filt, level);
  }
}
