/** PNG's row filters, as `stbi_write_png_to_mem` applies them and a decoder undoes them. */
module PngFilter {
  import opened Bits

  type Filter = f: nat | f <= 4

  // ----- filters (PNG specification, section 9) -----

  /** The predictor of section 9.4: whichever neighbour is nearest to `a + b - c`. */
  function Paeth(a: byte, b: byte, c: byte): (r: byte)
    ensures r == a || r == b || r == c
  {
    var p := a as int + b as int - c as int;
    var pa, pb, pc := Abs(p - a as int), Abs(p - b as int), Abs(p - c as int);
    if pa <= pb && pa <= pc then a else if pb <= pc then b else c
  }

  /** What filter `f` predicts of a byte from the bytes left of it, above it, and above and left. */
  function Predicted(f: Filter, a: byte, b: byte, c: byte): byte
  {
    match f
    case 0 => 0
    case 1 => a
    case 2 => b
    case 3 => (a as nat + b as nat) / 2
    case _ => Paeth(a, b, c)
  }

  /** The byte one pixel of `n` bytes to the left; zero left of the row. */
  function Left(row: seq<byte>, n: nat, i: nat): byte
    requires i < |row| + n && n > 0
  {
    if i >= n then row[i - n] else 0
  }

  function Prediction(f: Filter, n: nat, row: seq<byte>, prior: seq<byte>, i: nat): byte
    requires n > 0 && i <= |row| && i < |prior|
  {
    Predicted(f, Left(row, n, i), prior[i], Left(prior, n, i))
  }

  function Filtered(f: Filter, n: nat, row: seq<byte>, prior: seq<byte>): (line: seq<byte>)
    requires n > 0 && |row| == |prior|
    ensures |line| == |row|
  {
    seq(|row|, i requires 0 <= i < |row| => (row[i] as int - Prediction(f, n, row, prior, i) as int) % 0x100)
  }

  /** Paeth's neighbour is nearest to `a + b - c`; of equally near ones left comes before above, and that before `c`. */
  lemma PaethIsNearest(a: byte, b: byte, c: byte)
    ensures var p, r := a as int + b as int - c as int, Paeth(a, b, c);
      && (r == a || r == b || r == c)
      && Abs(p - r as int) <= Abs(p - a as int) && Abs(p - r as int) <= Abs(p - b as int)
      && Abs(p - r as int) <= Abs(p - c as int)
      && (Abs(p - r as int) == Abs(p - a as int) ==> r == a)
      && (Abs(p - r as int) == Abs(p - b as int) ==> r == a || r == b)
  {
  }

  /**
   * The filtered line by channel `ch` of pixel `px`, as sections 9.2 to 9.4 define the five filters: `a` is the same
   * channel of the pixel to the left, `b` of the one above, `c` of the one above and left, 0 where there is no pixel.
   */
  lemma FilteredIs(f: Filter, n: nat, row: seq<byte>, prior: seq<byte>, px: nat, ch: nat)
    requires n > 0 && |row| == |prior| && ch < n && n * px + ch < |row|
    ensures n * px + ch >= n <==> px > 0
    ensures var i := n * px + ch; var x, line := row[i], Filtered(f, n, row, prior);
      var a: byte, b: byte, c: byte := if px > 0 then row[i - n] else 0, prior[i], if px > 0 then prior[i - n] else 0;
      && (f == 0 ==> line[i] == x)
      && (f == 1 ==> line[i] as int == (x as int - a as int) % 0x100)
      && (f == 2 ==> line[i] as int == (x as int - b as int) % 0x100)
      && (f == 3 ==> exists m: nat :: 2 * m <= a + b <= 2 * m + 1 && line[i] as int == (x as int - m) % 0x100)
      && (f == 4 ==> line[i] as int == (x as int - Paeth(a, b, c) as int) % 0x100)
  {
    PixelStart(n, px, ch);
    var i := n * px + ch;
    var a: byte, b: byte := if px > 0 then row[i - n] else 0, prior[i];
    assert Left(row, n, i) == a;
    if f == 3 {
      var m: nat := (a as nat + b as nat) / 2;
      assert 2 * m <= a + b <= 2 * m + 1;
    }
  }

  lemma PixelStart(n: nat, px: nat, ch: nat)
    requires n > 0 && ch < n
    ensures n * px + ch >= n <==> px > 0
  {
    if px > 0 { assert n * px == n + n * (px - 1); }
  }

  /** A decoder's row: each byte is what was filtered and the prediction from the bytes already restored. */
  function Unfiltered(f: Filter, n: nat, line: seq<byte>, prior: seq<byte>): (row: seq<byte>)
    requires n > 0 && |line| <= |prior|
    ensures |row| == |line|
  {
    if line == [] then []
    else
      var i := |line| - 1;
      var front := Unfiltered(f, n, line[..i], prior);
      front + [(line[i] as int + Prediction(f, n, front, prior, i) as int) % 0x100]
  }

  lemma {:induction false} RowRoundTrip(f: Filter, n: nat, row: seq<byte>, prior: seq<byte>, k: nat)
    requires n > 0 && |row| == |prior| && k <= |row|
    ensures Unfiltered(f, n, Filtered(f, n, row, prior)[..k], prior) == row[..k]
  {
    if k > 0 {
      RowRoundTrip(f, n, row, prior, k - 1);
      var line := Filtered(f, n, row, prior);
      assert line[..k][..k - 1] == line[..k - 1];
      assert Prediction(f, n, row[..k - 1], prior, k - 1) == Prediction(f, n, row, prior, k - 1);
      UndoesMod(row[k - 1], Prediction(f, n, row, prior, k - 1));
      hide Filtered, Prediction;
    }
  }

  lemma UndoesMod(x: byte, p: byte)
    ensures ((x as int - p as int) % 0x100 + p as int) % 0x100 == x as int
  {
  }

  // ----- images -----

  /**
   * Pixels of `n` bytes. Row `r` starts `r` times `stride` bytes from `base`, where the caller's first row starts; the
   * stride may be negative. `flip` writes the bottom row first.
   */
  datatype Image = Image(pixels: seq<byte>, base: nat, stride: int, width: nat, height: nat, n: nat, flip: bool)
  {
    /** The first and the last row, and so all of them, lie in the caller's memory. */
    predicate Ok() {
      && width > 0 && n > 0 && Length() > 0
      && (height > 0 ==> Inside(base) && Inside(base + stride * (height - 1)))
    }

    predicate Inside(start: int) {
      0 <= start && start + Length() <= |pixels|
    }

    function Length(): nat {
      width * n
    }

    /** A stride of 0 stands for rows one behind the other. */
    function Spaced(): Image {
      if stride == 0 then this.(stride := width * n) else this
    }

    function Start(y: nat): int
      requires y < height
    {
      base + stride * (if flip then height - 1 - y else y)
    }

    lemma StartsInside(y: nat)
      requires Ok() && y < height
      ensures Inside(Start(y))
      ensures y > 0 ==> Start(y - 1) == if flip then Start(y) + stride else Start(y) - stride
    {
      var r := if flip then height - 1 - y else y;
      Between(stride, r, height - 1);
      if y > 0 {
        Between(stride, if flip then r else r - 1, height - 1);
      }
    }

    function Row(y: nat): (row: seq<byte>)
      requires Ok() && y < height
      ensures |row| == Length()
    {
      StartsInside(y);
      pixels[Start(y)..Start(y) + Length()]
    }

    /** The row above row `y` of the file; zeros above the first. */
    function Prior(y: nat): (row: seq<byte>)
      requires Ok() && y < height
      ensures |row| == Length()
    {
      if y == 0 then Zeros(Length()) else Row(y - 1)
    }
  }

  lemma Between(s: int, r: nat, t: nat)
    requires r <= t
    ensures 0 <= s * r <= s * t || s * t <= s * r <= 0
    ensures s * (r + 1) == s * r + s
  {
  }

  function Zeros(k: nat): (z: seq<byte>)
    ensures |z| == k && forall i | 0 <= i < k :: z[i] == 0
  {
    seq(k, _ => 0)
  }

  /** The `switch` for the bytes of the first pixel. */
  function FirstPixel(kind: nat, x: byte, b: byte): byte
  {
    match kind
    case 2 => (x as int - b as int) % 0x100
    case 3 => (x as int - b as int / 2) % 0x100
    case 4 => (x as int - Paeth(0, b, 0) as int) % 0x100
    case _ => x
  }

  /** The `switch` for the bytes behind it. */
  function OtherPixel(kind: nat, x: byte, a: byte, b: byte, c: byte): byte
  {
    match kind
    case 1 => (x as int - a as int) % 0x100
    case 2 => (x as int - b as int) % 0x100
    case 3 => (x as int - (a as int + b as int) / 2) % 0x100
    case 4 => (x as int - Paeth(a, b, c) as int) % 0x100
    case 5 => (x as int - a as int / 2) % 0x100
    case 6 => (x as int - Paeth(a, 0, 0) as int) % 0x100
    case _ => x
  }

  lemma AtLeastOne(width: nat, n: nat)
    requires width > 0
    ensures n <= width * n
  {
  }

  /** The kind of prediction for row `y`: in the first row, filters that look above are replaced by ones that do not. */
  function Kind(filter: Filter, y: nat): nat
  {
    if y != 0 then filter else [0, 1, 0, 5, 6][filter]
  }

  lemma CopyKind()
    ensures forall x, b :: FirstPixel(0, x, b) == x
    ensures forall x, a, b, c :: OtherPixel(0, x, a, b, c) == x
  {
  }

  /** The loops subtract what the filter predicts; in the first row the bytes above count as zeros. */
  lemma KindPredicts(filter: Filter, y: nat, x: byte, a: byte, b: byte, c: byte)
    ensures (x as int - Predicted(filter, 0, if y == 0 then 0 else b, 0) as int) % 0x100
         == FirstPixel(Kind(filter, y), x, b) as int
    ensures (x as int - Predicted(filter, a, if y == 0 then 0 else b, if y == 0 then 0 else c) as int) % 0x100
         == OtherPixel(Kind(filter, y), x, a, b, c) as int
  {
    assert Paeth(a, 0, 0) == a && Paeth(0, b, 0) == b && Paeth(0, 0, 0) == 0;
    hide Paeth;
    match filter
    case 0 =>
    case 1 =>
    case 2 =>
    case 3 =>
    case _ =>
  }

  /** What the loops write at `i`: `z` is the row, `up` the one above it. */
  lemma WritesFiltered(filter: Filter, y: nat, n: nat, z: seq<byte>, up: seq<byte>, i: nat)
    requires n > 0 && |z| == |up| && i < |z|
    ensures Filtered(filter, n, z, if y == 0 then Zeros(|z|) else up)[i] ==
            if i < n then FirstPixel(Kind(filter, y), z[i], up[i])
            else OtherPixel(Kind(filter, y), z[i], z[i - n], up[i], up[i - n])
  {
    KindPredicts(filter, y, z[i], if i < n then 0 else z[i - n], up[i], if i < n then 0 else up[i - n]);
    hide FirstPixel, OtherPixel, Predicted, Kind;
  }

  /** `stbiw__encode_png_line`. */
  method EncodePngLine(img: Image, y: nat, filter: Filter, line: array<byte>)
    requires img.Ok() && y < img.height && line.Length == img.Length()
    modifies line
    ensures line[..] == Filtered(filter, img.n, img.Row(y), img.Prior(y))
  {
    img.StartsInside(y);
    if y > 0 { img.StartsInside(y - 1); }
    var start, len := img.Start(y), img.Length();
    var above := if y == 0 then start else if img.flip then start + img.stride else start - img.stride;
    var z, up := img.pixels[start..start + len], img.pixels[above..above + len];
    AtLeastOne(img.width, img.n);
    assert img.Row(y) == z && img.Prior(y) == if y == 0 then Zeros(len) else up;
    FillLine(Kind(filter, y), img.n, z, up, line, filter, y);
  }

  /** The loops over the bytes of the row. */
  method FillLine(kind: nat, n: nat, z: seq<byte>, up: seq<byte>, line: array<byte>, ghost filter: Filter, ghost y: nat)
    requires kind == Kind(filter, y) && 0 < n <= |z| == |up| == line.Length
    modifies line
    ensures line[..] == Filtered(filter, n, z, if y == 0 then Zeros(|z|) else up)
  {
    ghost var want := Filtered(filter, n, z, if y == 0 then Zeros(|z|) else up);
    CopyKind();
    hide Filtered, FirstPixel, OtherPixel, Kind;
    if kind == 0 {
      for i := 0 to |z|
        invariant forall k | 0 <= k < i :: line[k] == want[k]
      {
        WritesFiltered(filter, y, n, z, up, i);
        line[i] := z[i];
      }
      assert line[..] == want;
      return;
    }
    for i := 0 to n
      invariant forall k | 0 <= k < i :: line[k] == want[k]
    {
      WritesFiltered(filter, y, n, z, up, i);
      line[i] := FirstPixel(kind, z[i], up[i]);
    }
    for i := n to |z|
      invariant forall k | 0 <= k < i :: line[k] == want[k]
    {
      WritesFiltered(filter, y, n, z, up, i);
      line[i] := OtherPixel(kind, z[i], z[i - n], up[i], up[i - n]);
    }
    assert line[..] == want;
  }
}
