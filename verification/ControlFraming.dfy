/** The bridge's TCP control channel: five header bytes and a payload, cut anywhere on the way. */
module ControlFraming {
  import opened Bits
  import opened Wire

  const MAX_PAYLOAD: nat := 1024 * 1024
  const HEADER_SIZE: nat := 5

  datatype Message = Message(kind: byte, payload: seq<byte>)

  /** `open` is false once an oversized header was met: the socket is destroyed. */
  datatype Parsed = Parsed(messages: seq<Message>, rest: seq<byte>, open: bool)
  {
    function After(earlier: seq<Message>): Parsed {
      Parsed(earlier + messages, rest, open)
    }
  }

  /** What `sendControlMessage` writes. */
  function Printed(m: Message): (s: seq<byte>)
    requires |m.payload| < 0x1_0000_0000
    ensures |s| == HEADER_SIZE + |m.payload|
  {
    [m.kind] + Le32(|m.payload|) + m.payload
  }

  predicate Sendable(ms: seq<Message>)
  {
    forall m | m in ms :: |m.payload| <= 0x10_0000
  }

  function PrintedAll(ms: seq<Message>): seq<byte>
    requires Sendable(ms)
  {
    if ms == [] then [] else Printed(ms[0]) + PrintedAll(ms[1..])
  }

  /** The messages of a stream that is all there. */
  function Parse(s: seq<byte>): (p: Parsed)
    ensures |p.rest| <= |s|
  {
    if |s| < HEADER_SIZE then Parsed([], s, true)
    else if Get32(s, 1) > MAX_PAYLOAD then Parsed([], [], false)
    else
      var end := HEADER_SIZE + Get32(s, 1);
      if |s| < end then Parsed([], s, true)
      else Parse(s[end..]).After([Message(s[0], s[HEADER_SIZE..end])])
  }

  /** Bytes still to come change nothing that was parsed. */
  lemma {:induction false} ParseSplit(a: seq<byte>, b: seq<byte>)
    ensures var p := Parse(a); Parse(a + b) == if p.open then Parse(p.rest + b).After(p.messages) else p
    decreases |a|
  {
    if |a| >= HEADER_SIZE {
      SameHeader(a, b);
      var end := HEADER_SIZE + Get32(a, 1);
      if end <= HEADER_SIZE + MAX_PAYLOAD && end <= |a| {
        var p := Parse(a[end..]);
        ParseSplit(a[end..], b);
        assert (a + b)[end..] == a[end..] + b && (a + b)[HEADER_SIZE..end] == a[HEADER_SIZE..end];
        AfterTwice(Parse(p.rest + b), p.messages, [Message(a[0], a[HEADER_SIZE..end])]);
      }
    }
  }

  lemma SameHeader(a: seq<byte>, b: seq<byte>)
    requires |a| >= HEADER_SIZE
    ensures Get32(a + b, 1) == Get32(a, 1) && (a + b)[0] == a[0]
  {
  }

  lemma AfterTwice(p: Parsed, ms: seq<Message>, first: seq<Message>)
    ensures p.After(ms).After(first) == p.After(first + ms)
  {
    assert first + (ms + p.messages) == first + ms + p.messages;
  }

  /** Parsing undoes printing, whatever comes after. */
  lemma {:induction false} ParsesPrinted(ms: seq<Message>, tail: seq<byte>)
    requires Sendable(ms)
    ensures Parse(PrintedAll(ms) + tail) == Parse(tail).After(ms)
  {
    hide Parse, Printed;
    if ms == [] {
      assert [] + tail == tail && [] + Parse(tail).messages == Parse(tail).messages;
    } else {
      var rest := PrintedAll(ms[1..]) + tail;
      ParsesPrinted(ms[1..], tail);
      assert PrintedAll(ms) + tail == Printed(ms[0]) + rest;
      ParsesOne(ms[0], rest);
      AfterTwice(Parse(tail), ms[1..], [ms[0]]);
      assert [ms[0]] + ms[1..] == ms;
    }
  }

  lemma ParsesOne(m: Message, tail: seq<byte>)
    requires |m.payload| <= MAX_PAYLOAD
    ensures Parse(Printed(m) + tail) == Parse(tail).After([m])
  {
    var s := Printed(m) + tail;
    assert s[1..5] == Le32(|m.payload|);
    Get32Le32(|m.payload|, s, 1);
    assert s[HEADER_SIZE..HEADER_SIZE + |m.payload|] == m.payload && s[HEADER_SIZE + |m.payload|..] == tail;
  }

  lemma RefusesOversized(big: Message, tail: seq<byte>)
    requires MAX_PAYLOAD < |big.payload| < 0x1_0000_0000
    ensures Parse(Printed(big) + tail) == Parsed([], [], false)
  {
    var s := Printed(big) + tail;
    assert s[1..5] == Le32(|big.payload|);
    Get32Le32(|big.payload|, s, 1);
  }

  /** After an oversized header nothing more is dispatched. */
  lemma StopsAtOversized(ms: seq<Message>, big: Message, tail: seq<byte>)
    requires Sendable(ms) && 0x10_0000 < |big.payload| < 0x1_0000_0000
    ensures Parse(PrintedAll(ms) + (Printed(big) + tail)) == Parsed(ms, [], false)
  {
    hide Parse, Printed, PrintedAll;
    ParsesPrinted(ms, Printed(big) + tail);
    RefusesOversized(big, tail);
  }

  class Reader {
    var tcpRxBuffer: seq<byte>
    var open: bool
    var dispatched: seq<Message>
    /** Every byte the socket delivered. */
    ghost var stream: seq<byte>

    /** What was dispatched depends on the bytes alone, not on how they were cut. */
    ghost predicate Valid()
      reads this
    {
      Parsed(dispatched, tcpRxBuffer, open) == Parse(stream)
    }

    constructor ()
      ensures Valid() && stream == []
    {
      tcpRxBuffer, open, dispatched, stream := [], true, [], [];
    }

    /** The socket's `data` event; a destroyed socket has none. */
    method OnData(chunk: seq<byte>)
      requires Valid()
      modifies this
      ensures Valid() && stream == old(stream) + chunk
    {
      ParseSplit(stream, chunk);
      stream := stream + chunk;
      if !open { return; }
      tcpRxBuffer := tcpRxBuffer + chunk;
      ProcessTcpMessages();
    }

    method ProcessTcpMessages()
      requires open
      modifies `tcpRxBuffer, `open, `dispatched
      ensures Parsed(dispatched, tcpRxBuffer, open) == old(Parse(tcpRxBuffer).After(dispatched))
    {
      while |tcpRxBuffer| >= HEADER_SIZE
        invariant open && Parse(tcpRxBuffer).After(dispatched) == old(Parse(tcpRxBuffer).After(dispatched))
        decreases |tcpRxBuffer|
      {
        var msgType := tcpRxBuffer[0];
        var msgLen := Get32(tcpRxBuffer, 1);
        if msgLen > MAX_PAYLOAD {
          tcpRxBuffer, open := [], false;
          return;
        }
        if |tcpRxBuffer| < HEADER_SIZE + msgLen { return; }
        var payload := tcpRxBuffer[HEADER_SIZE..HEADER_SIZE + msgLen];
        AfterTwice(Parse(tcpRxBuffer[HEADER_SIZE + msgLen..]), [Message(msgType, payload)], dispatched);
        tcpRxBuffer := tcpRxBuffer[HEADER_SIZE + msgLen..];
        dispatched := dispatched + [Message(msgType, payload)];
      }
    }
  }

  function Joined(chunks: seq<seq<byte>>): seq<byte>
  {
    if chunks == [] then [] else Joined(chunks[..|chunks| - 1]) + chunks[|chunks| - 1]
  }

  /** Whatever way the stream is cut, its messages are dispatched: the ones printed, if it was printed. */
  method Receive(chunks: seq<seq<byte>>) returns (dispatched: seq<Message>)
    ensures dispatched == Parse(Joined(chunks)).messages
    ensures forall ms | Sendable(ms) && PrintedAll(ms) == Joined(chunks) :: dispatched == ms
  {
    var reader := new Reader();
    for i := 0 to |chunks|
      invariant fresh(reader) && reader.Valid() && reader.stream == Joined(chunks[..i])
    {
      assert chunks[..i + 1][..i] == chunks[..i];
      reader.OnData(chunks[i]);
    }
    assert chunks[..|chunks|] == chunks;
    dispatched := reader.dispatched;
    forall ms | Sendable(ms) && PrintedAll(ms) == Joined(chunks) ensures dispatched == ms {
      ParsesPrinted(ms, []);
      assert PrintedAll(ms) + [] == PrintedAll(ms);
    }
  }
}
