/** The TGA writer's run-length encoding of pixel rows. */
module Tga {
  import opened Bits

  /** A pixel of one to four bytes: grey, grey and alpha, colour, colour and alpha. */
  type Pixel = seq<byte>

  predicate PixelsOk(row: seq<Pixel>, comp: nat)
  {
    1 <= comp <= 4 && forall p | p in row :: |p| == comp
  }

  /** `stbiw__write_pixel`: colours go out blue first. Reading a pixel swaps them back. */
  function Swapped(p: Pixel): (s: seq<byte>)
    ensures |s| == |p|
  {
    if |p| >= 3 then [p[2], p[1], p[0]] + p[3..] else p
  }

  lemma SwappedTwice(p: Pixel)
    ensures Swapped(Swapped(p)) == p
  {
    if |p| >= 3 { assert p == [p[0], p[1], p[2]] + p[3..]; }
  }

  /** A colour goes out as blue, green, red, and alpha behind them; a grey one as it is. */
  lemma BlueFirst(red: byte, green: byte, blue: byte, alpha: byte)
    ensures Swapped([red, green, blue]) == [blue, green, red]
    ensures Swapped([red, green, blue, alpha]) == [blue, green, red, alpha]
    ensures Swapped([red]) == [red] && Swapped([red, alpha]) == [red, alpha]
  {
  }

  // ----- packets -----

  datatype Packet = Raw(pixels: seq<Pixel>) | Run(count: nat, pixel: Pixel)
  {
    function Length(): nat {
      match this
      case Raw(ps) => |ps|
      case Run(n, _) => n
    }

    /** The pixels the packet stands for. */
    function Expanded(): (ps: seq<Pixel>)
      ensures |ps| == Length()
    {
      match this
      case Raw(ps) => ps
      case Run(n, p) => Repeated(n, p)
    }

    predicate Ok(comp: nat) {
      1 <= Length() <= 128 && PixelsOk(Expanded(), comp)
    }

    function Bytes(): seq<byte> {
      match this
      case Raw(ps) => [(|ps| + 255) % 256] + Written(ps)
      case Run(n, p) => [(n + 127) % 256] + Swapped(p)
    }
  }

  function Repeated(n: nat, p: Pixel): (ps: seq<Pixel>)
    ensures |ps| == n && forall k | 0 <= k < n :: ps[k] == p
  {
    seq(n, _ => p)
  }

  function Written(ps: seq<Pixel>): seq<byte>
  {
    if ps == [] then [] else Swapped(ps[0]) + Written(ps[1..])
  }

  ghost predicate PacketsOk(packets: seq<Packet>, comp: nat)
  {
    forall p | p in packets :: p.Ok(comp)
  }

  function ExpandAll(packets: seq<Packet>): seq<Pixel>
  {
    if packets == [] then [] else packets[0].Expanded() + ExpandAll(packets[1..])
  }

  function BytesOf(packets: seq<Packet>): seq<byte>
  {
    if packets == [] then [] else packets[0].Bytes() + BytesOf(packets[1..])
  }

  // ----- what a reader does -----

  /** `n` pixels of `comp` bytes, and the bytes behind them. */
  function TakePixels(s: seq<byte>, comp: nat, n: nat): (r: Option<(seq<Pixel>, seq<byte>)>)
    ensures r.Some? ==> |r.value.0| == n
  {
    if n == 0 then Some(([], s))
    else if |s| < comp then None
    else
      match TakePixels(s[comp..], comp, n - 1)
      case None => None
      case Some((ps, rest)) => Some(([Swapped(s[..comp])] + ps, rest))
  }

  /** One packet: a header byte, whose top bit says that one pixel is to be repeated, and the pixels. */
  function TakePacket(s: seq<byte>, comp: nat): (r: Option<(seq<Pixel>, seq<byte>)>)
    ensures r.Some? ==> |r.value.0| > 0
  {
    if s == [] then None
    else
      var n := s[0] as nat % 128 + 1;
      if s[0] < 128 then TakePixels(s[1..], comp, n)
      else
        match TakePixels(s[1..], comp, 1)
        case None => None
        case Some((ps, rest)) => Some((Repeated(n, ps[0]), rest))
  }

  /** The next `want` pixels. */
  function Unpack(s: seq<byte>, comp: nat, want: nat): Option<(seq<Pixel>, seq<byte>)>
    decreases want
  {
    if want == 0 then Some(([], s))
    else
      match TakePacket(s, comp)
      case None => None
      case Some((ps, rest)) =>
        if |ps| > want then None
        else
          match Unpack(rest, comp, want - |ps|)
          case None => None
          case Some((more, end)) => Some((ps + more, end))
  }

  lemma TakesOne(head: seq<byte>, tail: seq<byte>, n: nat, ps: seq<Pixel>, rest: seq<byte>)
    requires n > 0 && TakePixels(tail, |head|, n - 1) == Some((ps, rest))
    ensures TakePixels(head + tail, |head|, n) == Some(([Swapped(head)] + ps, rest))
  {
    hide Swapped;
    var s := head + tail;
    assert s[..|head|] == head && s[|head|..] == tail;
  }

  lemma WrittenOne(p: Pixel, more: seq<Pixel>, rest: seq<byte>)
    ensures Written([p] + more) + rest == Swapped(p) + (Written(more) + rest)
  {
    assert ([p] + more)[1..] == more;
  }

  lemma {:induction false} TakesWritten(ps: seq<Pixel>, comp: nat, rest: seq<byte>)
    requires PixelsOk(ps, comp)
    ensures TakePixels(Written(ps) + rest, comp, |ps|) == Some((ps, rest))
  {
    if ps == [] {
      assert Written(ps) + rest == rest;
    } else {
      var p, more := ps[0], ps[1..];
      assert p in ps && ps == [p] + more;
      hide TakePixels, Swapped, Written;
      TakesWritten(more, comp, rest);
      SwappedTwice(p);
      TakesOne(Swapped(p), Written(more) + rest, |ps|, more, rest);
      WrittenOne(p, more, rest);
    }
  }

  /** A packet is taken by its header byte. */
  lemma TakesHeaded(h: byte, body: seq<byte>, comp: nat, ps: seq<Pixel>, rest: seq<byte>)
    requires TakePixels(body + rest, comp, if h < 128 then h as nat + 1 else 1) == Some((ps, rest))
    ensures TakePacket([h] + body + rest, comp) == Some((if h < 128 then ps else Repeated(h as nat - 127, ps[0]), rest))
  {
    var s := [h] + body + rest;
    assert s[0] == h && s[1..] == body + rest;
    hide TakePixels, Repeated;
  }

  lemma TakesRaw(ps: seq<Pixel>, comp: nat, rest: seq<byte>)
    requires 1 <= |ps| <= 128 && PixelsOk(ps, comp)
    ensures TakePacket(Raw(ps).Bytes() + rest, comp) == Some((ps, rest))
  {
    var h: byte := (|ps| + 255) % 256;
    assert h as nat + 1 == |ps|;
    hide TakePixels, TakePacket, Written;
    TakesWritten(ps, comp, rest);
    TakesHeaded(h, Written(ps), comp, ps, rest);
  }

  lemma TakesRun(n: nat, p: Pixel, comp: nat, rest: seq<byte>)
    requires 1 <= n <= 128 && |p| == comp && 1 <= comp <= 4
    ensures TakePacket(Run(n, p).Bytes() + rest, comp) == Some((Repeated(n, p), rest))
  {
    var h: byte := (n + 127) % 256;
    assert h as nat - 127 == n;
    WrittenOne(p, [], rest);
    assert [p] + [] == [p] && Written([]) + rest == rest;
    TakesWritten([p], comp, rest);
    hide TakePixels, TakePacket, Written, Swapped;
    TakesHeaded(h, Swapped(p), comp, [p], rest);
  }

  lemma TakesPacket(p: Packet, comp: nat, rest: seq<byte>)
    requires p.Ok(comp)
    ensures TakePacket(p.Bytes() + rest, comp) == Some((p.Expanded(), rest))
  {
    match p
    case Raw(ps) => TakesRaw(ps, comp, rest);
    case Run(n, pixel) =>
      assert p.Expanded()[0] == pixel && pixel in p.Expanded();
      TakesRun(n, pixel, comp, rest);
  }

  lemma UnpackStep(s: seq<byte>, comp: nat, ps: seq<Pixel>, tail: seq<byte>, more: seq<Pixel>, rest: seq<byte>)
    requires TakePacket(s, comp) == Some((ps, tail)) && Unpack(tail, comp, |more|) == Some((more, rest))
    ensures Unpack(s, comp, |ps + more|) == Some((ps + more, rest))
  {
    assert |ps + more| - |ps| == |more|;
    hide TakePacket;
  }

  /** Reading undoes writing, for any packets of 1 to 128 pixels. */
  lemma {:induction false} UnpacksPackets(packets: seq<Packet>, comp: nat, rest: seq<byte>)
    requires PacketsOk(packets, comp)
    ensures Unpack(BytesOf(packets) + rest, comp, |ExpandAll(packets)|) == Some((ExpandAll(packets), rest))
    decreases |packets|
  {
    if packets == [] {
      assert BytesOf(packets) + rest == rest;
    } else {
      var p, more := packets[0], packets[1..];
      assert p in packets;
      assert BytesOf(packets) + rest == p.Bytes() + (BytesOf(more) + rest);
      hide TakePacket, BytesOf, Packet.Bytes, Packet.Expanded, Packet.Ok, Unpack;
      TakesPacket(p, comp, BytesOf(more) + rest);
      UnpacksPackets(more, comp, rest);
      UnpackStep(BytesOf(packets) + rest, comp, p.Expanded(), BytesOf(more) + rest, ExpandAll(more), rest);
    }
  }

  // ----- the writer -----

  /** The packet that starts at pixel `i`: how many pixels, and whether they are equal. */
  method NextPacket(row: seq<Pixel>, i: nat) returns (len: nat, run: bool)
    requires i < |row|
    ensures 1 <= len <= 128 && i + len <= |row|
    ensures run ==> len >= 2 && forall k | i <= k < i + len :: row[k] == row[i]
    ensures run <==> i < |row| - 1 && row[i] == row[i + 1]
    ensures run && len < 128 && i + len < |row| ==> row[i + len] != row[i]
  {
    len, run := 1, false;
    if i < |row| - 1 {
      len := 2;
      run := row[i] == row[i + 1];
      var k := i + 2;
      if !run {
        var prev := i;
        while k < |row| && len < 128
          invariant k == i + len <= |row| && prev == i + len - 2 && 2 <= len <= 128
        {
          if row[prev] != row[k] {
            prev := prev + 1;
            len := len + 1;
          } else {
            len := len - 1;
            break;
          }
          k := k + 1;
        }
      } else {
        while k < |row| && len < 128
          invariant k == i + len <= |row| && 2 <= len <= 128
          invariant forall j | i <= j < k :: row[j] == row[i]
        {
          if row[i] != row[k] { break; }
          len := len + 1;
          k := k + 1;
        }
      }
    }
  }

  lemma First(q: Packet, more: seq<Packet>)
    ensures ExpandAll([q] + more) == q.Expanded() + ExpandAll(more)
    ensures BytesOf([q] + more) == q.Bytes() + BytesOf(more)
  {
    assert ([q] + more)[1..] == more;
  }

  lemma {:induction false} Append(packets: seq<Packet>, p: Packet)
    ensures ExpandAll(packets + [p]) == ExpandAll(packets) + p.Expanded()
    ensures BytesOf(packets + [p]) == BytesOf(packets) + p.Bytes()
  {
    if packets == [] {
      First(p, []);
      assert packets + [p] == [p] + [];
    } else {
      var q, more := packets[0], packets[1..];
      assert packets == [q] + more && packets + [p] == [q] + (more + [p]);
      hide ExpandAll, BytesOf, Packet.Bytes, Packet.Expanded;
      Append(more, p);
      First(q, more);
      First(q, more + [p]);
      Regrouped(q.Expanded(), ExpandAll(more), p.Expanded());
      Regrouped(q.Bytes(), BytesOf(more), p.Bytes());
    }
  }

  /** The packet of `len` pixels at `i`, as the writer makes it. */
  lemma PacketIs(row: seq<Pixel>, comp: nat, i: nat, len: nat, run: bool) returns (p: Packet)
    requires PixelsOk(row, comp) && 1 <= len <= 128 && i + len <= |row|
    requires run ==> forall k | i <= k < i + len :: row[k] == row[i]
    ensures p.Ok(comp) && p.Expanded() == row[i..i + len]
    ensures p.Bytes() == if run then [(len + 127) % 256] + Swapped(row[i])
                         else [(len + 255) % 256] + Written(row[i..i + len])
  {
    p := if run then Run(len, row[i]) else Raw(row[i..i + len]);
    assert p.Expanded() == row[i..i + len];
    hide Written, Swapped, Packet.Expanded;
  }

  /** The pixel loop of `stbi_write_tga_core` over one row. */
  method WriteRow(row: seq<Pixel>, comp: nat) returns (out: seq<byte>, ghost packets: seq<Packet>)
    requires PixelsOk(row, comp)
    ensures PacketsOk(packets, comp) && ExpandAll(packets) == row && out == BytesOf(packets)
    ensures forall rest :: Unpack(out + rest, comp, |row|) == Some((row, rest))
  {
    hide Unpack, Packet.Ok, PixelsOk, Packet.Expanded, Packet.Bytes, Written, Swapped;
    out, packets := [], [];
    var i := 0;
    while i < |row|
      invariant i <= |row| && PacketsOk(packets, comp) && ExpandAll(packets) == row[..i] && out == BytesOf(packets)
    {
      var len, run := NextPacket(row, i);
      ghost var p := PacketIs(row, comp, i, len, run);
      Append(packets, p);
      if run {
        out := out + ([(len + 127) % 256] + Swapped(row[i]));
      } else {
        var pixels := WritePixels(row[i..i + len]);
        out := out + ([(len + 255) % 256] + pixels);
      }
      packets := packets + [p];
      assert row[..i] + row[i..i + len] == row[..i + len];
      i := i + len;
    }
    assert row[..i] == row;
    forall rest ensures Unpack(out + rest, comp, |row|) == Some((row, rest)) { UnpacksPackets(packets, comp, rest); }
  }

  method WritePixels(ps: seq<Pixel>) returns (out: seq<byte>)
    ensures out == Written(ps)
  {
    WrittenNone(ps);
    hide Written, Swapped;
    out := [];
    for k := 0 to |ps|
      invariant out + Written(ps[k..]) == Written(ps)
    {
      WrittenFrom(ps, k);
      out := out + Swapped(ps[k]);
    }
  }

  lemma WrittenNone(ps: seq<Pixel>)
    ensures ps[0..] == ps && Written(ps[|ps|..]) == []
  {
  }

  lemma WrittenFrom(ps: seq<Pixel>, k: nat)
    requires k < |ps|
    ensures Written(ps[k..]) == Swapped(ps[k]) + Written(ps[k + 1..])
  {
    assert ps[k..][0] == ps[k] && ps[k..][1..] == ps[k + 1..];
  }

  // ----- a whole image -----

  /** The next `rows` rows of `width` pixels. */
  function UnpackRows(s: seq<byte>, comp: nat, width: nat, rows: nat): Option<(seq<seq<Pixel>>, seq<byte>)>
  {
    if rows == 0 then Some(([], s))
    else
      match UnpackRows(s, comp, width, rows - 1)
      case None => None
      case Some((before, rest)) =>
        match Unpack(rest, comp, width)
        case None => None
        case Some((row, end)) => Some((before + [row], end))
  }

  /** The rows in the order of the file: the image's bottom row first, unless writing is flipped. */
  function FileOrder(rows: seq<seq<Pixel>>, flip: bool): (r: seq<seq<Pixel>>)
    ensures |r| == |rows|
  {
    seq(|rows|, k requires 0 <= k < |rows| => rows[if flip then k else |rows| - 1 - k])
  }

  /** `s` is read as the rows `done`, whatever comes behind it. */
  ghost predicate ReadsAs(s: seq<byte>, comp: nat, width: nat, done: seq<seq<Pixel>>)
  {
    forall tail :: UnpackRows(s + tail, comp, width, |done|) == Some((done, tail))
  }

  lemma OneMoreRow(s: seq<byte>, comp: nat, width: nat, done: seq<seq<Pixel>>, packets: seq<Packet>)
    requires ReadsAs(s, comp, width, done) && PacketsOk(packets, comp) && |ExpandAll(packets)| == width
    ensures ReadsAs(s + BytesOf(packets), comp, width, done + [ExpandAll(packets)])
  {
    var bytes, row := BytesOf(packets), ExpandAll(packets);
    forall tail ensures UnpackRows(s + bytes + tail, comp, width, |done + [row]|) == Some((done + [row], tail)) {
      Regrouped(s, bytes, tail);
      assert UnpackRows(s + (bytes + tail), comp, width, |done|) == Some((done, bytes + tail));
      UnpacksPackets(packets, comp, tail);
      hide Unpack, ExpandAll, BytesOf;
    }
  }

  /** The row loop: a reader gets every pixel of every row back. */
  method WriteRows(rows: seq<seq<Pixel>>, comp: nat, width: nat, flip: bool) returns (out: seq<byte>)
    requires forall row | row in rows :: |row| == width && PixelsOk(row, comp)
    ensures UnpackRows(out, comp, width, |rows|) == Some((FileOrder(rows, flip), []))
  {
    hide PacketsOk, PixelsOk, ReadsAs, ExpandAll, BytesOf, UnpackRows, FileOrder;
    out := [];
    var j: int := if flip then 0 else |rows| - 1;
    var end: int := if flip then |rows| else -1;
    var dir := if flip then 1 else -1;
    ghost var order, done := FileOrder(rows, flip), 0;
    ReadsNothing(comp, width);
    assert order[..0] == [];
    while j != end
      invariant 0 <= done <= |rows| && j == if flip then done else |rows| - 1 - done
      invariant ReadsAs(out, comp, width, order[..done])
      decreases |rows| - done
    {
      var row := rows[j];
      InOrder(rows, flip, done);
      var bytes;
      ghost var packets;
      bytes, packets := WriteRow(row, comp);
      OneMoreRow(out, comp, width, order[..done], packets);
      out := out + bytes;
      j := j + dir;
      done := done + 1;
    }
    assert order[..done] == order;
    ReadsAll(out, comp, width, order);
  }

  lemma InOrder(rows: seq<seq<Pixel>>, flip: bool, k: nat)
    requires k < |rows|
    ensures var row := rows[if flip then k else |rows| - 1 - k];
      row in rows && FileOrder(rows, flip)[k] == row &&
          FileOrder(rows, flip)[..k] + [row] == FileOrder(rows, flip)[..k + 1]
  {
  }

  lemma ReadsNothing(comp: nat, width: nat)
    ensures ReadsAs([], comp, width, [])
  {
    assert forall tail: seq<byte> :: [] + tail == tail;
  }

  lemma ReadsAll(s: seq<byte>, comp: nat, width: nat, done: seq<seq<Pixel>>)
    requires ReadsAs(s, comp, width, done)
    ensures UnpackRows(s, comp, width, |done|) == Some((done, []))
  {
    assert s + [] == s;
  }
}
