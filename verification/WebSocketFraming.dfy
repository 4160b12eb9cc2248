/** The bridge's WebSocket server: client frames of RFC 6455, cut anywhere on the way. */
module WebSocketFraming {
  import opened Bits
  import Fec

  const CLOSE: nat := 0x8

  /** A frame as a client sends it (RFC 6455 section 5.2): the bits above the opcode, and a key when it is masked. */
  datatype Sent = Sent(flags: nat, op: nat, key: Option<seq<byte>>, data: seq<byte>)
  {
    predicate Fits() {
      flags < 16 && op < 16 && |data| < 0x1_0000 && (key.Some? ==> |key.value| == 4)
    }

    function Content(): Frame {
      Frame(op, data)
    }
  }

  /** A frame as the bridge acts on it. */
  datatype Frame = Frame(op: nat, data: seq<byte>)

  /** RFC 6455 section 5.3; masking a second time removes the mask. */
  function Masked(data: seq<byte>, key: seq<byte>): (r: seq<byte>)
    requires |key| == 4
    ensures |r| == |data|
  {
    seq(|data|, i requires 0 <= i < |data| => Fec.XorByte(data[i], key[i % 4]))
  }

  /** Octet `j` of each group of four is masked with octet `j` of the key. */
  lemma MaskedAt(data: seq<byte>, key: seq<byte>, i: nat, j: nat)
    requires |key| == 4 && j < 4 && 4 * i + j < |data|
    ensures Masked(data, key)[4 * i + j] == Fec.XorByte(data[4 * i + j], key[j])
  {
  }

  lemma Unmasks(data: seq<byte>, key: seq<byte>)
    requires |key| == 4
    ensures Masked(Masked(data, key), key) == data
  {
    forall i | 0 <= i < |data| ensures Masked(Masked(data, key), key)[i] == data[i] {
      Fec.XorAssociates(data[i], key[i % 4], key[i % 4]);
      Fec.XorSelf(key[i % 4]);
      Fec.XorCommutes(data[i], 0);
    }
  }

  function Be16(v: nat): (s: seq<byte>)
    requires v < 0x1_0000
    ensures |s| == 2
  {
    [v / 0x100, v % 0x100]
  }

  function Header(f: Sent): (s: seq<byte>)
    requires f.Fits()
  {
    var mask := if f.key.Some? then 0x80 else 0;
    [f.flags * 16 + f.op] +
    (if |f.data| < 126 then [mask + |f.data|] else [mask + 126] + Be16(|f.data|)) +
    (if f.key.Some? then f.key.value else [])
  }

  function Printed(f: Sent): seq<byte>
    requires f.Fits()
  {
    Header(f) + if f.key.Some? then Masked(f.data, f.key.value) else f.data
  }

  predicate AllFit(fs: seq<Sent>)
  {
    forall f | f in fs :: f.Fits()
  }

  predicate NoClose(fs: seq<Sent>)
  {
    forall f | f in fs :: f.op != 8
  }

  function PrintedAll(fs: seq<Sent>): seq<byte>
    requires AllFit(fs)
  {
    if fs == [] then [] else Printed(fs[0]) + PrintedAll(fs[1..])
  }

  function Frames(fs: seq<Sent>): seq<Frame>
  {
    if fs == [] then [] else [fs[0].Content()] + Frames(fs[1..])
  }

  // ----- parsing -----

  /** The start of a buffer: an unfinished frame, a frame with a 64-bit length, or a frame of `size` bytes. */
  datatype Next = More | Long | Whole(frame: Frame, size: nat)

  function NextFrame(s: seq<byte>): (r: Next)
    ensures r.Whole? ==> 0 < r.size <= |s|
  {
    if |s| < 2 then More
    else
      var short := s[1] as nat % 128;
      if short == 127 then Long
      else if short == 126 && |s| < 4 then More
      else
        var off := if short == 126 then 4 else 2;
        var len := if short == 126 then s[2] as nat * 0x100 + s[3] as nat else short;
        Body(s, off, len)
  }

  /** The frame whose key, or else data, starts at `off`. */
  function Body(s: seq<byte>, off: nat, len: nat): (r: Next)
    requires 2 <= off && |s| >= 2
    ensures r.Whole? ==> 0 < r.size <= |s|
  {
    var start := if s[1] >= 0x80 then off + 4 else off;
    if |s| < start + len then More
    else Whole(Frame(s[0] as nat % 16,
                     if s[1] >= 0x80 then Masked(s[start..start + len], s[off..off + 4]) else s[start..start + len]),
               start + len)
  }

  /** `open` is false once a 64-bit length was met: the socket is destroyed. */
  datatype Parsed = Parsed(frames: seq<Frame>, rest: seq<byte>, open: bool)
  {
    function After(earlier: seq<Frame>): Parsed {
      Parsed(earlier + frames, rest, open)
    }

    predicate Closes() {
      exists f | f in frames :: f.op == CLOSE
    }
  }

  /** The frames of a stream that is all there, up to the first close or 64-bit length. */
  function Parse(s: seq<byte>): Parsed
    decreases |s|
  {
    match NextFrame(s)
    case More => Parsed([], s, true)
    case Long => Parsed([], s, false)
    case Whole(f, size) => if f.op == CLOSE then Parsed([f], s[size..], true) else Parse(s[size..]).After([f])
  }

  lemma NextGrows(a: seq<byte>, b: seq<byte>)
    ensures !NextFrame(a).More? ==> NextFrame(a + b) == NextFrame(a)
  {
    hide Body;
    if |a| >= 2 {
      BodyGrows(a, b, 2, a[1] as nat % 128);
      if |a| >= 4 { BodyGrows(a, b, 4, a[2] as nat * 0x100 + a[3] as nat); }
    }
  }

  lemma BodyGrows(a: seq<byte>, b: seq<byte>, off: nat, len: nat)
    requires 2 <= off && |a| >= 2
    ensures !Body(a, off, len).More? ==> Body(a + b, off, len) == Body(a, off, len)
  {
    hide Masked;
    var start := if a[1] >= 0x80 then off + 4 else off;
    if |a| >= start + len {
      assert (a + b)[start..start + len] == a[start..start + len];
      assert a[1] >= 0x80 ==> (a + b)[off..off + 4] == a[off..off + 4];
    }
  }

  /** Bytes still to come change nothing that was parsed, and nothing is parsed after a close. */
  lemma {:induction false} ParseSplit(a: seq<byte>, b: seq<byte>)
    ensures var p := Parse(a);
      Parse(a + b) ==
      if !p.open || p.Closes() then Parsed(p.frames, p.rest + b, p.open) else Parse(p.rest + b).After(p.frames)
    decreases |a|
  {
    hide Masked, NextFrame;
    NextGrows(a, b);
    match NextFrame(a)
    case More =>
    case Long =>
    case Whole(f, size) =>
      assert (a + b)[size..] == a[size..] + b;
      var p := Parse(a[size..]);
      if f.op == CLOSE {
        assert f in Parse(a).frames;
      } else {
        ParseSplit(a[size..], b);
        ClosesAfter(p, f);
        AfterTwice(Parse(p.rest + b), p.frames, [f]);
      }
  }

  lemma ClosesAfter(p: Parsed, f: Frame)
    requires f.op != CLOSE
    ensures p.After([f]).Closes() <==> p.Closes()
  {
    if p.Closes() {
      var g :| g in p.frames && g.op == CLOSE;
      assert g in p.After([f]).frames;
    }
  }

  lemma AfterTwice(p: Parsed, fs: seq<Frame>, first: seq<Frame>)
    ensures p.After(fs).After(first) == p.After(first + fs)
  {
    assert first + (fs + p.frames) == first + fs + p.frames;
  }

  // ----- parsing undoes printing -----

  lemma ParsesOne(f: Sent, tail: seq<byte>)
    requires f.Fits()
    ensures NextFrame(Printed(f) + tail) == Whole(f.Content(), |Printed(f)|) &&
        (Printed(f) + tail)[|Printed(f)|..] == tail
  {
    var s, off := Printed(f) + tail, if |f.data| < 126 then 2 else 4;
    HeaderParts(f, s);
    hide Header;
    ParsesBody(f, tail, s, off);
    hide Body, Masked;
  }

  /** The two bytes before the length, and the length. */
  lemma HeaderParts(f: Sent, s: seq<byte>)
    requires f.Fits() && Header(f) <= s
    ensures |s| >= 2 && s[0] as nat % 16 == f.op && (s[1] >= 0x80 <==> f.key.Some?)
    ensures s[1] as nat % 128 == if |f.data| < 126 then |f.data| else 126
    ensures |f.data| >= 126 ==> |s| >= 4 && s[2] as nat * 0x100 + s[3] as nat == |f.data|
    ensures var off := if |f.data| < 126 then 2 else 4;
      && |Header(f)| == (if f.key.Some? then off + 4 else off)
      && (f.key.Some? ==> s[off..off + 4] == f.key.value)
  {
    var h, off := Header(f), if |f.data| < 126 then 2 else 4;
    assert s[0] == h[0] && s[1] == h[1];
    if |f.data| >= 126 { assert s[2] == h[2] && s[3] == h[3]; }
    if f.key.Some? { assert s[off..off + 4] == h[off..] == f.key.value; }
  }

  lemma ParsesBody(f: Sent, tail: seq<byte>, s: seq<byte>, off: nat)
    requires f.Fits() && s == Printed(f) + tail && 2 <= off && |s| >= 2
    requires s[0] as nat % 16 == f.op && (s[1] >= 0x80 <==> f.key.Some?)
    requires |Header(f)| == (if f.key.Some? then off + 4 else off) && (f.key.Some? ==> s[off..off + 4] == f.key.value)
    ensures Body(s, off, |f.data|) == Whole(f.Content(), |Printed(f)|)
  {
    hide Header, Masked;
    var n := |Header(f)|;
    if f.key.Some? {
      Unmasks(f.data, f.key.value);
      assert s[n..n + |f.data|] == Masked(f.data, f.key.value);
    } else {
      assert s[n..n + |f.data|] == f.data;
    }
  }

  lemma {:induction false} ParsesPrinted(fs: seq<Sent>, tail: seq<byte>)
    requires AllFit(fs) && NoClose(fs)
    ensures Parse(PrintedAll(fs) + tail) == Parse(tail).After(Frames(fs))
  {
    hide NextFrame, Printed;
    if fs == [] {
      assert [] + tail == tail && [] + Parse(tail).frames == Parse(tail).frames;
    } else {
      var rest := PrintedAll(fs[1..]) + tail;
      ParsesPrinted(fs[1..], tail);
      assert PrintedAll(fs) + tail == Printed(fs[0]) + rest;
      ParsesOne(fs[0], rest);
      AfterTwice(Parse(tail), Frames(fs[1..]), [fs[0].Content()]);
    }
  }

  lemma ParsesClose(f: Sent, tail: seq<byte>)
    requires f.Fits() && f.op == CLOSE
    ensures Parse(Printed(f) + tail) == Parsed([f.Content()], tail, true)
  {
    ParsesOne(f, tail);
  }

  // ----- the socket -----

  method Unmask(bytes: seq<byte>, key: seq<byte>) returns (r: seq<byte>)
    requires |key| == 4
    ensures r == Masked(bytes, key)
  {
    var data := new byte[|bytes|](i requires 0 <= i < |bytes| => bytes[i]);
    for i := 0 to |bytes|
      invariant forall k | 0 <= k < |bytes| :: data[k] == if k < i then Masked(bytes, key)[k] else bytes[k]
    {
      data[i] := Fec.XorByte(data[i], key[i % 4]);
    }
    r := data[..];
  }

  class Socket {
    var buf: seq<byte>
    var open: bool
    var dispatched: seq<Frame>
    /** Every byte the socket delivered. */
    ghost var stream: seq<byte>

    /** Up to the first close, what was dispatched depends on the bytes alone, not on how they were cut. */
    ghost predicate Valid()
      reads this
    {
      var p := Parse(stream);
      if p.Closes() then p.frames <= dispatched
      else dispatched == p.frames && open == p.open && (open ==> buf == p.rest)
    }

    constructor ()
      ensures Valid() && stream == [] && open && buf == [] && dispatched == []
    {
      buf, open, dispatched, stream := [], true, [], [];
    }

    /** The socket's `data` event; a destroyed socket has none. */
    method OnData(chunk: seq<byte>)
      requires Valid()
      modifies this
      ensures Valid() && stream == old(stream) + chunk
      ensures Parsed(dispatched, buf, open) == old(if open then Parse(buf + chunk).After(dispatched)
                                                   else Parsed(dispatched, buf, open))
    {
      ghost var before := Parsed(dispatched, buf, open);
      hide Parse;
      ParseSplit(stream, chunk);
      if open {
        buf := buf + chunk;
        Drain();
      }
      StaysValid(Parse(stream), Parse(stream + chunk), chunk, before, Parsed(dispatched, buf, open));
      stream := stream + chunk;
    }

    /** The `while` loop over `buf`. */
    method Drain()
      requires open
      modifies `buf, `open, `dispatched
      ensures Parsed(dispatched, buf, open) == old(Parse(buf).After(dispatched))
    {
      while |buf| >= 2
        invariant open && Parse(buf).After(dispatched) == old(Parse(buf).After(dispatched))
        decreases |buf|
      {
        hide Masked, Parse;
        var op := buf[0] as nat % 16;
        var masked := buf[1] >= 0x80;
        var len, off := buf[1] as nat % 128, 2;
        if len == 126 {
          if |buf| < 4 { ParseMore(buf); return; }
          len := buf[2] as nat * 0x100 + buf[3] as nat;
          off := 4;
        } else if len == 127 {
          ParseMore(buf);
          open := false;
          return;
        }
        var start := if masked then off + 4 else off;
        if |buf| < start + len { ParseMore(buf); return; }
        var data := buf[start..start + len];
        if masked { data := Unmask(data, buf[off..off + 4]); }
        assert NextFrame(buf) == Whole(Frame(op, data), start + len);
        ParseWhole(buf, dispatched);
        buf := buf[start + len..];
        dispatched := dispatched + [Frame(op, data)];
        if op == CLOSE { return; }
      }
      ParseMore(buf);
    }
  }

  lemma ParseMore(s: seq<byte>)
    ensures NextFrame(s).More? ==> Parse(s) == Parsed([], s, true)
    ensures NextFrame(s).Long? ==> Parse(s) == Parsed([], s, false)
  {
  }

  lemma ParseWhole(s: seq<byte>, earlier: seq<Frame>)
    requires NextFrame(s).Whole?
    ensures var n := NextFrame(s);
      Parse(s).After(earlier) ==
      if n.frame.op == CLOSE then Parsed(earlier + [n.frame], s[n.size..], true)
      else Parse(s[n.size..]).After(earlier + [n.frame])
  {
    var n := NextFrame(s);
    AfterTwice(Parse(s[n.size..]), [n.frame], earlier);
  }

  lemma StaysValid(p: Parsed, p': Parsed, chunk: seq<byte>, before: Parsed, after: Parsed)
    requires p' == if !p.open || p.Closes() then Parsed(p.frames, p.rest + chunk, p.open)
                   else Parse(p.rest + chunk).After(p.frames)
    requires after == if before.open then Parse(before.rest + chunk).After(before.frames) else before
    requires if p.Closes() then p.frames <= before.frames
             else before.frames == p.frames && before.open == p.open && (before.open ==> before.rest == p.rest)
    ensures if p'.Closes() then p'.frames <= after.frames
            else after.frames == p'.frames && after.open == p'.open && (after.open ==> after.rest == p'.rest)
  {
    hide Parse;
  }

  function Joined(chunks: seq<seq<byte>>): seq<byte>
  {
    if chunks == [] then [] else Joined(chunks[..|chunks| - 1]) + chunks[|chunks| - 1]
  }

  // ----- which streams may be cut anywhere -----

  /** What one `data` event makes of the socket. */
  function Feed(p: Parsed, chunk: seq<byte>): Parsed
  {
    if p.open then Parse(p.rest + chunk).After(p.frames) else p
  }

  /** What the socket has dispatched and kept after the events `chunks`. */
  function FeedAll(chunks: seq<seq<byte>>): Parsed
  {
    if chunks == [] then Parsed([], [], true) else Feed(FeedAll(chunks[..|chunks| - 1]), chunks[|chunks| - 1])
  }

  /** No whole frame stands behind the stream's first close. */
  predicate CloseIsLast(s: seq<byte>)
  {
    Parse(s).Closes() ==> !NextFrame(Parse(s).rest).Whole?
  }

  lemma NothingParsed()
    ensures Parse([]) == Parsed([], [], true)
  {
  }

  lemma {:induction false} FeedsAlike(chunks: seq<seq<byte>>)
    ensures var p, f := Parse(Joined(chunks)), FeedAll(chunks);
      if p.Closes() then p.frames <= f.frames
      else f.frames == p.frames && f.open == p.open && (f.open ==> f.rest == p.rest)
  {
    NothingParsed();
    if chunks != [] {
      var front, last := chunks[..|chunks| - 1], chunks[|chunks| - 1];
      hide Parse, NextFrame;
      FeedsAlike(front);
      ParseSplit(Joined(front), last);
      StaysValid(Parse(Joined(front)), Parse(Joined(chunks)), last, FeedAll(front), FeedAll(chunks));
    }
  }

  /** With no whole frame behind the close, nothing more is ever dispatched. */
  lemma {:induction false} NothingAfterClose(chunks: seq<seq<byte>>)
    requires CloseIsLast(Joined(chunks)) && Parse(Joined(chunks)).Closes()
    ensures var p, f := Parse(Joined(chunks)), FeedAll(chunks);
      f.frames == p.frames && (f.open ==> f.rest == p.rest)
  {
    NothingParsed();
    if chunks != [] {
      var front, last := chunks[..|chunks| - 1], chunks[|chunks| - 1];
      var before, f := Parse(Joined(front)), FeedAll(front);
      hide Parse, NextFrame;
      ParseSplit(Joined(front), last);
      FeedsAlike(front);
      if before.Closes() {
        NextGrows(before.rest, last);
        NothingAfterClose(front);
        if f.open { ParseMore(before.rest + last); }
        assert f.frames + [] == f.frames;
      }
    }
  }

  lemma NextExact(s: seq<byte>)
    requires NextFrame(s).Whole?
    ensures NextFrame(s[..NextFrame(s).size]) == NextFrame(s)
  {
    hide Masked;
    var a := s[..NextFrame(s).size];
    var off := if s[1] as nat % 128 == 126 then 4 else 2;
    var start := if s[1] >= 0x80 then off + 4 else off;
    assert a[start..] == s[start..|a|] && a[start..|a|] == a[start..];
    assert s[1] >= 0x80 ==> a[off..off + 4] == s[off..off + 4];
  }

  /** The stream up to its close parses on its own. */
  lemma {:induction false} UpToClose(s: seq<byte>) returns (a: seq<byte>)
    requires Parse(s).Closes()
    ensures s == a + Parse(s).rest && Parse(a) == Parsed(Parse(s).frames, [], true)
    decreases |s|
  {
    hide NextFrame;
    var n := NextFrame(s);
    NextExact(s);
    if n.frame.op == CLOSE {
      a := s[..n.size];
    } else {
      ClosesAfter(Parse(s[n.size..]), n.frame);
      var more := UpToClose(s[n.size..]);
      a := s[..n.size] + more;
      NextGrows(s[..n.size], more);
      assert a[n.size..] == more;
      assert s == s[..n.size] + s[n.size..];
    }
  }

  /** A stream may be cut anywhere exactly when no whole frame stands behind its first close. */
  lemma CutsDoNotMatterIff(s: seq<byte>)
    ensures (forall chunks | Joined(chunks) == s :: FeedAll(chunks).frames == Parse(s).frames) <==> CloseIsLast(s)
  {
    hide Parse, NextFrame;
    if CloseIsLast(s) {
      forall chunks | Joined(chunks) == s ensures FeedAll(chunks).frames == Parse(s).frames {
        FeedsAlike(chunks);
        if Parse(s).Closes() { NothingAfterClose(chunks); }
      }
    } else {
      var a := UpToClose(s);
      var rest := Parse(s).rest;
      TwoChunks(a, rest);
      ParseWhole(rest, Parse(s).frames);
      assert |Feed(Parse(a), rest).frames| > |Parse(s).frames| by { WholeAdds(Parse(s).frames, rest); }
      assert FeedAll([a, rest]).frames != Parse(s).frames;
    }
  }

  lemma WholeAdds(earlier: seq<Frame>, rest: seq<byte>)
    requires NextFrame(rest).Whole?
    ensures |Parse([] + rest).After(earlier).frames| > |earlier|
  {
    hide NextFrame;
    assert [] + rest == rest;
  }

  lemma TwoChunks(a: seq<byte>, b: seq<byte>)
    ensures Joined([a, b]) == a + b
    ensures FeedAll([a, b]) == Feed(Parse(a), b)
  {
    hide Parse;
    assert [a, b][..1] == [a] && [a][..0] == [] && [] + a == a;
    assert Joined([a]) == Joined([]) + a;
    assert FeedAll([a]) == Feed(FeedAll([]), a);
    var p := Parse(a);
    assert p.After([]) == p;
  }

  /** Whatever way the stream is cut, its frames up to the first close or 64-bit length are dispatched, unmasked. */
  method Receive(chunks: seq<seq<byte>>) returns (dispatched: seq<Frame>)
    ensures dispatched == FeedAll(chunks).frames
    ensures Parse(Joined(chunks)).frames <= dispatched
    ensures CloseIsLast(Joined(chunks)) ==> dispatched == Parse(Joined(chunks)).frames
    ensures !Parse(Joined(chunks)).Closes() ==> dispatched == Parse(Joined(chunks)).frames
    ensures forall fs | AllFit(fs) && NoClose(fs) && PrintedAll(fs) == Joined(chunks) :: dispatched == Frames(fs)
  {
    hide Parse, NextFrame, PrintedAll, Frames;
    var socket := new Socket();
    for i := 0 to |chunks|
      invariant fresh(socket) && socket.Valid() && socket.stream == Joined(chunks[..i])
      invariant Parsed(socket.dispatched, socket.buf, socket.open) == FeedAll(chunks[..i])
    {
      assert chunks[..i + 1][..i] == chunks[..i];
      socket.OnData(chunks[i]);
    }
    assert chunks[..|chunks|] == chunks;
    dispatched := socket.dispatched;
    CutsDoNotMatterIff(Joined(chunks));
    forall fs | AllFit(fs) && NoClose(fs) && PrintedAll(fs) == Joined(chunks) ensures dispatched == Frames(fs) {
      ParsesPrinted(fs, []);
      assert PrintedAll(fs) + [] == PrintedAll(fs);
      FramesNoClose(fs);
    }
  }

  lemma {:induction false} FramesNoClose(fs: seq<Sent>)
    requires NoClose(fs)
    ensures forall f | f in Frames(fs) :: f.op != CLOSE
  {
    if fs != [] { FramesNoClose(fs[1..]); }
  }

  lemma CloseThen(close: Sent, next: Sent)
    requires close.Fits() && next.Fits() && close.op == CLOSE != next.op
    ensures Parse(Printed(close) + Printed(next)).After([]) == Parsed([close.Content()], Printed(next), true)
    ensures Parse(Printed(close)).After([]) == Parsed([close.Content()], [], true)
    ensures Parse(Printed(next)).After([close.Content()]) == Parsed([close.Content(), next.Content()], [], true)
  {
    assert NextFrame([]).More?;
    hide NextFrame, Printed;
    var c, n := Printed(close), Printed(next);
    ParsesClose(close, n);
    ParsesClose(close, []);
    ParsesOne(next, []);
    assert c + [] == c && n + [] == n;
    assert n[|n|..] == [];
  }

  /** Past a close the cut does matter: a frame in the same chunk is left alone, one in the next chunk is dispatched. */
  method AfterClose(close: Sent, next: Sent) returns (together: seq<Frame>, apart: seq<Frame>)
    requires close.Fits() && next.Fits() && close.op == CLOSE != next.op
    ensures together == [close.Content()] && apart == [close.Content(), next.Content()]
  {
    var a := new Socket();
    var b := new Socket();
    var c, n := Printed(close), Printed(next);
    CloseThen(close, next);
    hide *;
    assert [] + (c + n) == c + n && [] + c == c && [] + n == n;
    a.OnData(c + n);
    b.OnData(c);
    b.OnData(n);
    together, apart := a.dispatched, b.dispatched;
  }
}
