/** The Radiance writer's run-length encoding of a scanline, one byte plane after the other. */
module Hdr {
  import opened Bits

  // ----- codes -----

  /** `Dump` has 1 to 128 bytes of their own, `Repeat` 1 to 127 times the same one. */
  datatype Code = Dump(data: seq<byte>) | Repeat(count: nat, value: byte)
  {
    function Expanded(): seq<byte> {
      match this
      case Dump(d) => d
      case Repeat(n, v) => Repeated(n, v)
    }

    predicate Ok() {
      match this
      case Dump(d) => 1 <= |d| <= 128
      case Repeat(n, _) => 1 <= n <= 127
    }

    function Bytes(): seq<byte> {
      match this
      case Dump(d) => [|d| % 256] + d
      case Repeat(n, v) => [(n + 128) % 256, v]
    }
  }

  function Repeated(n: nat, v: byte): (s: seq<byte>)
    ensures |s| == n && forall k | 0 <= k < n :: s[k] == v
  {
    seq(n, _ => v)
  }

  ghost predicate CodesOk(codes: seq<Code>)
  {
    forall c | c in codes :: c.Ok()
  }

  function ExpandAll(codes: seq<Code>): seq<byte>
  {
    if codes == [] then [] else codes[0].Expanded() + ExpandAll(codes[1..])
  }

  function BytesOf(codes: seq<Code>): seq<byte>
  {
    if codes == [] then [] else codes[0].Bytes() + BytesOf(codes[1..])
  }

  // ----- what a reader does -----

  /** One code: above 128, the byte behind it is repeated; otherwise that many bytes follow. */
  function TakeCode(s: seq<byte>): (r: Option<(seq<byte>, seq<byte>)>)
    ensures r.Some? ==> |r.value.0| > 0
  {
    if s == [] || s[0] == 0 then None
    else if s[0] > 128 then
      if |s| < 2 then None else Some((Repeated(s[0] as nat - 128, s[1]), s[2..]))
    else if |s| < 1 + s[0] as nat then None
    else Some((s[1..][..s[0]], s[1..][s[0]..]))
  }

  /** The next `want` bytes of a plane. */
  function Unpack(s: seq<byte>, want: nat): Option<(seq<byte>, seq<byte>)>
    decreases want
  {
    if want == 0 then Some(([], s))
    else
      match TakeCode(s)
      case None => None
      case Some((data, rest)) =>
        if |data| > want then None
        else
          match Unpack(rest, want - |data|)
          case None => None
          case Some((more, end)) => Some((data + more, end))
  }

  lemma TakesCode(c: Code, rest: seq<byte>)
    requires c.Ok()
    ensures TakeCode(c.Bytes() + rest) == Some((c.Expanded(), rest))
  {
    match c
    case Dump(d) =>
      var h: byte := |d| % 256;
      assert h as nat == |d|;
      TakesDump(h, d, rest);
    case Repeat(n, v) =>
      var h: byte := (n + 128) % 256;
      assert h as nat - 128 == n;
      TakesRepeat(h, v, rest);
  }

  lemma TakesDump(h: byte, d: seq<byte>, rest: seq<byte>)
    requires 1 <= h as nat == |d| <= 128
    ensures TakeCode([h] + d + rest) == Some((d, rest))
  {
    var s := [h] + d + rest;
    assert s[0] == h && s[1..] == d + rest;
    assert (d + rest)[..h] == d && (d + rest)[h..] == rest;
  }

  lemma TakesRepeat(h: byte, v: byte, rest: seq<byte>)
    requires h > 128
    ensures TakeCode([h, v] + rest) == Some((Repeated(h as nat - 128, v), rest))
  {
    var s := [h, v] + rest;
    assert s[0] == h && s[1] == v && s[2..] == rest;
  }

  lemma UnpackStep(s: seq<byte>, data: seq<byte>, tail: seq<byte>, more: seq<byte>, rest: seq<byte>)
    requires TakeCode(s) == Some((data, tail)) && Unpack(tail, |more|) == Some((more, rest))
    ensures Unpack(s, |data + more|) == Some((data + more, rest))
  {
    assert |data + more| - |data| == |more|;
    hide TakeCode;
  }

  /** Reading undoes writing, for any codes within their limits. */
  lemma {:induction false} UnpacksCodes(codes: seq<Code>, rest: seq<byte>)
    requires CodesOk(codes)
    ensures Unpack(BytesOf(codes) + rest, |ExpandAll(codes)|) == Some((ExpandAll(codes), rest))
    decreases |codes|
  {
    hide TakeCode, Code.Bytes, Code.Expanded, Code.Ok;
    if codes == [] {
      assert BytesOf(codes) + rest == rest;
    } else {
      var c, more := codes[0], codes[1..];
      assert c in codes;
      assert BytesOf(codes) + rest == c.Bytes() + (BytesOf(more) + rest);
      hide BytesOf, Unpack;
      TakesCode(c, BytesOf(more) + rest);
      UnpacksCodes(more, rest);
      UnpackStep(BytesOf(codes) + rest, c.Expanded(), BytesOf(more) + rest, ExpandAll(more), rest);
    }
  }

  // ----- the writer -----

  lemma First(c: Code, more: seq<Code>)
    ensures ExpandAll([c] + more) == c.Expanded() + ExpandAll(more)
    ensures BytesOf([c] + more) == c.Bytes() + BytesOf(more)
  {
    assert ([c] + more)[1..] == more;
  }

  lemma {:induction false} Append(codes: seq<Code>, c: Code)
    ensures ExpandAll(codes + [c]) == ExpandAll(codes) + c.Expanded()
    ensures BytesOf(codes + [c]) == BytesOf(codes) + c.Bytes()
  {
    if codes == [] {
      First(c, []);
      assert codes + [c] == [c] + [];
    } else {
      var q, more := codes[0], codes[1..];
      assert codes == [q] + more && codes + [c] == [q] + (more + [c]);
      hide ExpandAll, BytesOf, Code.Bytes, Code.Expanded;
      Append(more, c);
      First(q, more);
      First(q, more + [c]);
      Regrouped(q.Expanded(), ExpandAll(more), c.Expanded());
      Regrouped(q.Bytes(), BytesOf(more), c.Bytes());
    }
  }

  /** What has been written so far: codes for the first `x` bytes of the plane. */
  ghost predicate WrittenUpTo(comp: seq<byte>, x: nat, out: seq<byte>, codes: seq<Code>)
  {
    x <= |comp| && CodesOk(codes) && ExpandAll(codes) == comp[..x] && out == BytesOf(codes)
  }

  lemma OneMore(comp: seq<byte>, x: nat, out: seq<byte>, codes: seq<Code>, c: Code, end: nat)
    requires WrittenUpTo(comp, x, out, codes) && c.Ok() && x <= end <= |comp| && c.Expanded() == comp[x..end]
    ensures WrittenUpTo(comp, end, out + c.Bytes(), codes + [c])
  {
    hide ExpandAll, BytesOf, Code.Bytes, Code.Expanded, Code.Ok;
    Append(codes, c);
    assert comp[..x] + comp[x..end] == comp[..end];
  }

  /** The search for three equal bytes from `x` on; the plane's length when there are none. */
  method FindRun(comp: seq<byte>, x: nat) returns (r: nat)
    requires x < |comp|
    ensures x <= r <= |comp|
    ensures r < |comp| ==> r + 2 < |comp| && comp[r] == comp[r + 1] == comp[r + 2]
    ensures forall k | x <= k < r && k + 2 < |comp| :: !(comp[k] == comp[k + 1] == comp[k + 2])
  {
    r := x;
    while r + 2 < |comp|
      invariant x <= r < |comp|
      invariant forall k | x <= k < r && k + 2 < |comp| :: !(comp[k] == comp[k + 1] == comp[k + 2])
    {
      if comp[r] == comp[r + 1] && comp[r] == comp[r + 2] { break; }
      r := r + 1;
    }
    if r + 2 >= |comp| { r := |comp|; }
  }

  /** Dumps the bytes from `x` to `r`. */
  method DumpTo(comp: seq<byte>, x0: nat, r: nat, out0: seq<byte>, ghost codes0: seq<Code>)
    returns (out: seq<byte>, ghost codes: seq<Code>)
    requires WrittenUpTo(comp, x0, out0, codes0) && x0 <= r <= |comp|
    ensures WrittenUpTo(comp, r, out, codes)
  {
    hide WrittenUpTo;
    var x := x0;
    out, codes := out0, codes0;
    while x < r
      invariant x <= r && WrittenUpTo(comp, x, out, codes)
    {
      var len := r - x;
      if len > 128 { len := 128; }
      ghost var c := Dump(comp[x..x + len]);
      OneMore(comp, x, out, codes, c, x + len);
      out := out + ([len % 256] + comp[x..x + len]);
      codes := codes + [c];
      x := x + len;
    }
  }

  /** Repeats the byte at `x0` up to `r`. */
  method RepeatTo(comp: seq<byte>, x0: nat, r: nat, out0: seq<byte>, ghost codes0: seq<Code>)
    returns (out: seq<byte>, ghost codes: seq<Code>)
    requires WrittenUpTo(comp, x0, out0, codes0) && x0 <= r <= |comp|
    requires forall k | x0 <= k < r :: comp[k] == comp[x0]
    ensures WrittenUpTo(comp, r, out, codes)
  {
    hide WrittenUpTo;
    var x := x0;
    out, codes := out0, codes0;
    while x < r
      invariant x0 <= x <= r && WrittenUpTo(comp, x, out, codes)
    {
      var len := r - x;
      if len > 127 { len := 127; }
      ghost var c := Repeat(len, comp[x]);
      assert c.Expanded() == comp[x..x + len];
      OneMore(comp, x, out, codes, c, x + len);
      out := out + [(len + 128) % 256, comp[x]];
      codes := codes + [c];
      x := x + len;
    }
  }

  /** One plane of a scanline. */
  method WritePlane(comp: seq<byte>) returns (out: seq<byte>, ghost codes: seq<Code>)
    ensures CodesOk(codes) && ExpandAll(codes) == comp && out == BytesOf(codes)
    ensures forall rest :: Unpack(out + rest, |comp|) == Some((comp, rest))
  {
    hide Unpack, ExpandAll, BytesOf, CodesOk, Code.Ok;
    out, codes := [], [];
    StartOk(comp);
    var x := 0;
    while x < |comp|
      invariant WrittenUpTo(comp, x, out, codes)
    {
      var r := FindRun(comp, x);
      out, codes := DumpTo(comp, x, r, out, codes);
      x := r;
      if r + 2 < |comp| {
        while r < |comp| && comp[r] == comp[x]
          invariant x <= r <= |comp| && forall k | x <= k < r :: comp[k] == comp[x]
          invariant r > x || (r < |comp| && comp[r] == comp[x])
        {
          r := r + 1;
        }
        out, codes := RepeatTo(comp, x, r, out, codes);
        x := r;
      }
    }
    assert comp[..x] == comp;
    forall rest ensures Unpack(out + rest, |comp|) == Some((comp, rest)) { UnpacksCodes(codes, rest); }
  }

  lemma StartOk(comp: seq<byte>)
    ensures WrittenUpTo(comp, 0, [], [])
  {
  }

  // ----- scanlines -----

  /** A pixel's four bytes: three mantissas and the common exponent. */
  datatype Rgbe = Rgbe(r: byte, g: byte, b: byte, e: byte)

  function Plane(pixels: seq<Rgbe>, c: nat): (p: seq<byte>)
    ensures |p| == |pixels|
  {
    seq(|pixels|, x requires 0 <= x < |pixels| =>
      match c case 0 => pixels[x].r case 1 => pixels[x].g case 2 => pixels[x].b case _ => pixels[x].e)
  }

  predicate IsFlat(width: nat)
  {
    width < 8 || width >= 32768
  }

  /** A scanline of `width` pixels: flat, or two bytes 2, the width, and four packed planes. */
  function ReadScanline(s: seq<byte>, width: nat): Option<(seq<Rgbe>, seq<byte>)>
  {
    if IsFlat(width) then ReadFlat(s, width)
    else if |s| < 4 || s[0] != 2 || s[1] != 2 || s[2] as nat * 256 + s[3] as nat != width then None
    else
      match Unpack(s[4..], width)
      case None => None
      case Some((r, s1)) =>
        match Unpack(s1, width)
        case None => None
        case Some((g, s2)) =>
          match Unpack(s2, width)
          case None => None
          case Some((b, s3)) =>
            match Unpack(s3, width)
            case None => None
            case Some((e, rest)) => if |r| == |g| == |b| == |e| then Some((Zip(r, g, b, e), rest)) else None
  }

  function Zip(r: seq<byte>, g: seq<byte>, b: seq<byte>, e: seq<byte>): (ps: seq<Rgbe>)
    requires |r| == |g| == |b| == |e|
    ensures |ps| == |r|
  {
    seq(|r|, x requires 0 <= x < |r| => Rgbe(r[x], g[x], b[x], e[x]))
  }

  function ReadFlat(s: seq<byte>, width: nat): Option<(seq<Rgbe>, seq<byte>)>
  {
    if width == 0 then Some(([], s))
    else if |s| < 4 then None
    else
      match ReadFlat(s[4..], width - 1)
      case None => None
      case Some((ps, rest)) => Some(([Rgbe(s[0], s[1], s[2], s[3])] + ps, rest))
  }

  function Flat(pixels: seq<Rgbe>): seq<byte>
  {
    if pixels == [] then [] else [pixels[0].r, pixels[0].g, pixels[0].b, pixels[0].e] + Flat(pixels[1..])
  }

  lemma {:induction false} ReadsFlat(pixels: seq<Rgbe>, rest: seq<byte>)
    ensures ReadFlat(Flat(pixels) + rest, |pixels|) == Some((pixels, rest))
  {
    if pixels == [] {
      assert Flat(pixels) + rest == rest;
    } else {
      ReadsFlat(pixels[1..], rest);
      var s, tail := Flat(pixels) + rest, Flat(pixels[1..]) + rest;
      assert s == [pixels[0].r, pixels[0].g, pixels[0].b, pixels[0].e] + tail && s[4..] == tail;
      hide Flat;
      assert [pixels[0]] + pixels[1..] == pixels;
    }
  }

  lemma ZipsPlanes(pixels: seq<Rgbe>)
    ensures Zip(Plane(pixels, 0), Plane(pixels, 1), Plane(pixels, 2), Plane(pixels, 3)) == pixels
  {
  }

  lemma ReadsPacked(pixels: seq<Rgbe>, head: seq<byte>, codes: seq<seq<Code>>, rest: seq<byte>)
    requires !IsFlat(|pixels|) && |codes| == 4
    requires head == [2, 2, |pixels| / 256 % 256, |pixels| % 256]
    requires forall c | 0 <= c < 4 :: CodesOk(codes[c]) && ExpandAll(codes[c]) == Plane(pixels, c)
    ensures ReadScanline(head + BytesOf(codes[0]) + BytesOf(codes[1]) + BytesOf(codes[2]) + BytesOf(codes[3]) + rest,
                         |pixels|)
         == Some((pixels, rest))
  {
    hide Unpack, BytesOf, ExpandAll, CodesOk, Plane, Zip;
    var s4 := BytesOf(codes[3]) + rest;
    var s3 := BytesOf(codes[2]) + s4;
    var s2 := BytesOf(codes[1]) + s3;
    var s1 := BytesOf(codes[0]) + s2;
    UnpacksCodes(codes[0], s2);
    UnpacksCodes(codes[1], s3);
    UnpacksCodes(codes[2], s4);
    UnpacksCodes(codes[3], rest);
    ZipsPlanes(pixels);
    var s := head + BytesOf(codes[0]) + BytesOf(codes[1]) + BytesOf(codes[2]) + BytesOf(codes[3]) + rest;
    assert s == head + s1 && s[4..] == s1;
    assert s[0] == 2 && s[1] == 2 && s[2] as nat * 256 + s[3] as nat == |pixels|;
  }

  /** `stbiw__write_hdr_scanline`, from the pixels' bytes on. */
  method WriteScanline(pixels: seq<Rgbe>) returns (out: seq<byte>)
    ensures forall rest :: ReadScanline(out + rest, |pixels|) == Some((pixels, rest))
    ensures |pixels| < 8 || |pixels| >= 32768 ==> out == Flat(pixels)
    ensures 8 <= |pixels| < 32768 ==> [2, 2, |pixels| / 256, |pixels| % 256] <= out
  {
    hide ReadScanline, BytesOf, ExpandAll, CodesOk, Plane, ReadFlat;
    var width := |pixels|;
    if IsFlat(width) {
      out := WriteFlat(pixels);
      FlatScanline(pixels);
    } else {
      out := [2, 2, width / 256 % 256, width % 256];
      ghost var head := out;
      ghost var r: seq<Code>, g: seq<Code>, b: seq<Code>, e: seq<Code>;
      var bytes;
      bytes, r := WritePlane(Plane(pixels, 0));
      out := out + bytes;
      bytes, g := WritePlane(Plane(pixels, 1));
      out := out + bytes;
      bytes, b := WritePlane(Plane(pixels, 2));
      out := out + bytes;
      bytes, e := WritePlane(Plane(pixels, 3));
      out := out + bytes;
      forall rest ensures ReadScanline(out + rest, |pixels|) == Some((pixels, rest)) {
        ReadsPacked(pixels, head, [r, g, b, e], rest);
      }
    }
  }

  lemma FlatScanline(pixels: seq<Rgbe>)
    requires IsFlat(|pixels|)
    ensures forall rest :: ReadScanline(Flat(pixels) + rest, |pixels|) == Some((pixels, rest))
  {
    forall rest ensures ReadScanline(Flat(pixels) + rest, |pixels|) == Some((pixels, rest)) { ReadsFlat(pixels, rest); }
  }

  method WriteFlat(pixels: seq<Rgbe>) returns (out: seq<byte>)
    ensures out == Flat(pixels)
  {
    out := [];
    for x := 0 to |pixels|
      invariant out + Flat(pixels[x..]) == Flat(pixels)
    {
      assert pixels[x..][0] == pixels[x] && pixels[x..][1..] == pixels[x + 1..];
      out := out + [pixels[x].r, pixels[x].g, pixels[x].b, pixels[x].e];
    }
  }
}
