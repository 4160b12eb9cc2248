/** The web bridge's reassembly of UDP frames: many monitors and frames at once, packets in any order. */
module Bridge {
  import opened Bits
  import opened Wire
  import opened Fec

  const MAX_AGE_MS: int := 5000

  datatype Key = Key(monitor: nat, frame: nat)

  datatype Entry = Entry(chunks: seq<Option<seq<byte>>>, received: nat, createdMs: int)
  {
    function Total(): nat {
      |chunks|
    }

    function With(i: nat, chunk: seq<byte>): Entry
      requires i < Total()
    {
      if chunks[i].Some? then this else this.(chunks := chunks[i := Some(chunk)], received := received + 1)
    }
  }

  datatype Shown = Shown(key: Key, data: seq<byte>)

  datatype State = State(frameBuffer: map<Key, Entry>, shown: seq<Shown>)

  datatype Event = Event(packet: seq<byte>, now: int)

  // ----- one packet -----

  function Fresh(total: nat, now: int): (e: Entry)
    ensures e.Total() == total
  {
    Entry(seq(total, _ => None), 0, now)
  }

  /** The chunks that are there, one after the other. */
  function Join(chunks: seq<Option<seq<byte>>>): seq<byte>
  {
    if chunks == [] then []
    else Join(chunks[..|chunks| - 1]) + match chunks[|chunks| - 1] case Some(c) => c case None => []
  }

  function Cleaned(buffer: map<Key, Entry>, cutoff: int): map<Key, Entry>
  {
    map k | k in buffer && buffer[k].createdMs >= cutoff :: buffer[k]
  }

  function Store(s: State, key: Key, total: nat, i: nat, chunk: seq<byte>, now: int): State
    requires i < total
  {
    var known := key in s.frameBuffer && s.frameBuffer[key].Total() == total;
    var entry := (if known then s.frameBuffer[key] else Fresh(total, now)).With(i, chunk);
    if entry.received >= total then
      State(Cleaned(s.frameBuffer - {key}, now - MAX_AGE_MS), s.shown + [Shown(key, Join(entry.chunks))])
    else
      s.(frameBuffer := s.frameBuffer[key := entry])
  }

  function Step(s: State, e: Event): State
  {
    if |e.packet| < VIDEO_HEADER_SIZE then s
    else
      var h := Unpacked(e.packet);
      if h.count == 0 || h.index >= h.count then s
      else Store(s, Key(h.monitor, h.frame), h.count, h.index, e.packet[VIDEO_HEADER_SIZE..], e.now)
  }

  function Run(s: State, events: seq<Event>): State
  {
    if events == [] then s else Step(Run(s, events[..|events| - 1]), events[|events| - 1])
  }

  // ----- what the host sent -----

  /** The host's frames, one for each monitor and frame number. */
  type Sent = map<Key, seq<byte>>

  predicate SentOk(sent: Sent)
  {
    forall k | k in sent :: Sendable(k.monitor, k.frame, sent[k])
  }

  ghost predicate PacketOf(sent: Sent, packet: seq<byte>, k: Key, a: Arrival)
    requires SentOk(sent)
  {
    k in sent && IsPacket(packet, k.monitor, k.frame, sent[k], a)
  }

  ghost predicate FromHost(sent: Sent, packet: seq<byte>)
    requires SentOk(sent)
  {
    exists k, a :: PacketOf(sent, packet, k, a)
  }

  /** What the chunks of a frame carry: all of it, unless their number outgrew its 16 bits. */
  function Carried(data: seq<byte>): seq<byte>
  {
    var end := MAX_UDP_PAYLOAD * ChunkCount(|data|);
    if end < |data| then data[..end] else data
  }

  lemma CarriedIsAll(data: seq<byte>)
    requires |data| < 0x1_0000_0000
    ensures Carried(data) == data <==> |data| <= 0xFFFF * MAX_UDP_PAYLOAD
  {
    ChunksCover(|data|);
  }

  // ----- the invariant -----

  function Count(chunks: seq<Option<seq<byte>>>): nat
  {
    if chunks == [] then 0
    else Count(chunks[..|chunks| - 1]) + if chunks[|chunks| - 1].Some? then 1 else 0
  }

  ghost predicate EntryOk(e: Entry, data: seq<byte>)
  {
    && e.Total() == ChunkCount(|data|) && e.received == Count(e.chunks) < e.Total()
    && forall i | 0 <= i < e.Total() && e.chunks[i].Some? ::
         MAX_UDP_PAYLOAD * i < |data| && e.chunks[i].value == Chunk(data, i)
  }

  ghost predicate Inv(sent: Sent, s: State)
  {
    && (forall k | k in s.frameBuffer :: k in sent && EntryOk(s.frameBuffer[k], sent[k]))
    && (forall f | f in s.shown :: f.key in sent && f.data == Carried(sent[f.key]))
  }

  lemma {:induction false} CountBound(chunks: seq<Option<seq<byte>>>)
    ensures Count(chunks) <= |chunks|
    ensures Count(chunks) == |chunks| <==> forall i | 0 <= i < |chunks| :: chunks[i].Some?
  {
    if chunks != [] {
      var front := chunks[..|chunks| - 1];
      CountBound(front);
      assert forall i | 0 <= i < |front| :: front[i] == chunks[i];
    }
  }

  lemma {:induction false} CountWith(chunks: seq<Option<seq<byte>>>, i: nat, c: seq<byte>)
    requires i < |chunks| && chunks[i].None?
    ensures Count(chunks[i := Some(c)]) == Count(chunks) + 1
  {
    var last := |chunks| - 1;
    var more := chunks[i := Some(c)];
    if i < last {
      assert more[..last] == chunks[..last][i := Some(c)];
      CountWith(chunks[..last], i, c);
    } else {
      assert more[..last] == chunks[..last];
    }
  }

  lemma {:induction false} CountFresh(n: nat, chunks: seq<Option<seq<byte>>>)
    requires |chunks| == n && forall i | 0 <= i < n :: chunks[i].None?
    ensures Count(chunks) == 0
  {
    if n > 0 { CountFresh(n - 1, chunks[..n - 1]); }
  }

  lemma {:induction false} JoinsFrame(data: seq<byte>, chunks: seq<Option<seq<byte>>>)
    requires forall i | 0 <= i < |chunks| ::
      MAX_UDP_PAYLOAD * i < |data| && chunks[i] == Some(Chunk(data, i))
    ensures Join(chunks) == data[..if MAX_UDP_PAYLOAD * |chunks| < |data| then MAX_UDP_PAYLOAD * |chunks| else |data|]
  {
    if chunks != [] {
      var k := |chunks| - 1;
      JoinsFrame(data, chunks[..k]);
      assert MAX_UDP_PAYLOAD * k < |data|;
      ChunksJoin(data, k, Join(chunks[..k]));
    }
  }

  /** What storing a chunk of the frame leaves in its entry, before the entry is looked at again. */
  lemma WithKeeps(e: Entry, data: seq<byte>, i: nat)
    requires EntryOk(e, data) && i < e.Total() && MAX_UDP_PAYLOAD * i < |data|
    ensures var e' := e.With(i, Chunk(data, i));
      && e'.received == Count(e'.chunks) <= e.Total() == e'.Total()
      && (e'.received == e.Total() <==> forall j | 0 <= j < e.Total() :: e'.chunks[j].Some?)
      && (forall j | 0 <= j < e.Total() :: e'.chunks[j].Some? <==> e.chunks[j].Some? || j == i)
      && (forall j | 0 <= j < e.Total() && e'.chunks[j].Some? ::
            MAX_UDP_PAYLOAD * j < |data| && e'.chunks[j].value == Chunk(data, j))
  {
    hide Chunk;
    if e.chunks[i].None? { CountWith(e.chunks, i, Chunk(data, i)); }
    CountBound(e.With(i, Chunk(data, i)).chunks);
  }

  lemma FreshOk(data: seq<byte>, now: int)
    requires ChunkCount(|data|) > 0
    ensures EntryOk(Fresh(ChunkCount(|data|), now), data)
  {
    CountFresh(ChunkCount(|data|), Fresh(ChunkCount(|data|), now).chunks);
  }

  /** The entry a chunk of frame `k` goes into. */
  ghost function EntryFor(sent: Sent, s: State, k: Key, now: int): Entry
    requires k in sent
  {
    if k in s.frameBuffer then s.frameBuffer[k] else Fresh(ChunkCount(|sent[k]|), now)
  }

  /** A parity packet is dropped; a data packet goes to its frame's entry, which is shown when it is full. */
  lemma StepIs(sent: Sent, s: State, e: Event, k: Key, a: Arrival)
    requires SentOk(sent) && Inv(sent, s) && PacketOf(sent, e.packet, k, a)
    ensures a.ParityOf? ==> Step(s, e) == s
    ensures a.DataOf? ==>
      var data := sent[k];
      && a.i < ChunkCount(|data|) && MAX_UDP_PAYLOAD * a.i < |data|
      && EntryOk(EntryFor(sent, s, k, e.now), data) && a.i < EntryFor(sent, s, k, e.now).Total()
      && Step(s, e) == Placed(s, k, EntryFor(sent, s, k, e.now).With(a.i, Chunk(data, a.i)), e.now)
  {
    hide Unpacked, Chunk, ParityChunk, IsPacket;
    ReadsPacket(e.packet, k.monitor, k.frame, sent[k], a);
    if a.DataOf? {
      ChunkStart(|sent[k]|, a.i);
      FreshOk(sent[k], e.now);
    }
  }

  function Placed(s: State, k: Key, entry: Entry, now: int): State
  {
    if entry.received >= entry.Total() then
      State(Cleaned(s.frameBuffer - {k}, now - MAX_AGE_MS), s.shown + [Shown(k, Join(entry.chunks))])
    else
      s.(frameBuffer := s.frameBuffer[k := entry])
  }

  lemma PlacedKeepsInv(sent: Sent, s: State, k: Key, entry: Entry, now: int)
    requires Inv(sent, s) && k in sent && entry.Total() == ChunkCount(|sent[k]|)
    requires entry.received == Count(entry.chunks) <= entry.Total()
    requires entry.received == entry.Total() <==> forall j | 0 <= j < entry.Total() :: entry.chunks[j].Some?
    requires forall j | 0 <= j < entry.Total() && entry.chunks[j].Some? ::
      MAX_UDP_PAYLOAD * j < |sent[k]| && entry.chunks[j].value == Chunk(sent[k], j)
    ensures Inv(sent, Placed(s, k, entry, now))
  {
    if entry.received >= entry.Total() {
      JoinsFrame(sent[k], entry.chunks);
      assert Join(entry.chunks) == Carried(sent[k]);
    }
    hide Chunk, Join, Count, Carried;
  }

  /** Every frame shown is the host's, whatever packets were lost, doubled or out of order. */
  lemma StepKeepsInv(sent: Sent, s: State, e: Event)
    requires SentOk(sent) && Inv(sent, s) && FromHost(sent, e.packet)
    ensures Inv(sent, Step(s, e))
  {
    hide IsPacket, Chunk, Join, Count, Carried, Step, EntryOk, Placed;
    var k, a :| PacketOf(sent, e.packet, k, a);
    StepIs(sent, s, e, k, a);
    if a.DataOf? {
      var before := EntryFor(sent, s, k, e.now);
      assert before.Total() == ChunkCount(|sent[k]|) by { TotalIs(before, sent[k]); }
      WithKeeps(before, sent[k], a.i);
      PlacedKeepsInv(sent, s, k, before.With(a.i, Chunk(sent[k], a.i)), e.now);
    }
  }

  lemma TotalIs(e: Entry, data: seq<byte>)
    requires EntryOk(e, data)
    ensures e.Total() == ChunkCount(|data|)
  {
  }

  lemma {:induction false} RunKeepsInv(sent: Sent, s: State, events: seq<Event>)
    requires SentOk(sent) && Inv(sent, s) && forall e | e in events :: FromHost(sent, e.packet)
    ensures Inv(sent, Run(s, events))
  {
    if events != [] {
      RunKeepsInv(sent, s, events[..|events| - 1]);
      StepKeepsInv(sent, Run(s, events[..|events| - 1]), events[|events| - 1]);
    }
  }

  // ----- any packet at all, whoever sent it -----

  /** Long enough for a header whose chunk number is below its chunk count. */
  predicate WellFormed(packet: seq<byte>)
  {
    |packet| >= 9 && Get16(packet, 5) < Get16(packet, 7)
  }

  ghost predicate Counted(s: State)
  {
    forall k | k in s.frameBuffer ::
      var e := s.frameBuffer[k];
      e.received == Count(e.chunks) < e.Total()
  }

  /** The entry of frame `k` that a packet of `n` chunks goes on with; an entry of another count is a stale one. */
  ghost function Kept(s: State, k: Key, n: nat): Option<Entry>
  {
    if k in s.frameBuffer && s.frameBuffer[k].Total() == n then Some(s.frameBuffer[k]) else None
  }

  /** The entry that a packet of frame `k` goes into: the one kept, or a new one. */
  ghost function Going(s: State, k: Key, n: nat, now: int): (e: Entry)
    ensures e.Total() == n
    ensures Kept(s, k, n).None? ==> forall j | 0 <= j < n :: e.chunks[j].None?
    ensures if Kept(s, k, n).Some? then e == s.frameBuffer[k] else e.createdMs == now
  {
    if Kept(s, k, n).Some? then s.frameBuffer[k] else Fresh(n, now)
  }

  /**
   * A malformed packet changes nothing. Any other adds its chunk to its frame unless that is there already; a frame
   * thereby full leaves the buffer and is shown, and with it go the entries begun more than five seconds before.
   */
  lemma AnyPacket(s: State, e: Event)
    requires Counted(s)
    ensures !WellFormed(e.packet) ==> Step(s, e) == s
    ensures WellFormed(e.packet) ==>
      var t, k := Step(s, e), Key(e.packet[0], Get32(e.packet, 1));
      var i, n := Get16(e.packet, 5), Get16(e.packet, 7);
      var entry := Going(s, k, n, e.now);
      if forall j | 0 <= j < n && j != i :: entry.chunks[j].Some? then
        && |t.shown| == |s.shown| + 1 && t.shown[..|s.shown|] == s.shown && t.shown[|s.shown|].key == k
        && t.frameBuffer == map k' | k' in s.frameBuffer && k' != k && s.frameBuffer[k'].createdMs >= e.now - 5000
                              :: s.frameBuffer[k']
      else
        && t.shown == s.shown && k in t.frameBuffer && t.frameBuffer - {k} == s.frameBuffer - {k}
        && t.frameBuffer[k].Total() == n && t.frameBuffer[k].createdMs == entry.createdMs
        && forall j | 0 <= j < n ::
             t.frameBuffer[k].chunks[j] ==
               if j == i && entry.chunks[j].None? then Some(e.packet[9..]) else entry.chunks[j]
  {
    if WellFormed(e.packet) {
      var k, i, n := Key(e.packet[0], Get32(e.packet, 1)), Get16(e.packet, 5), Get16(e.packet, 7);
      var entry := Going(s, k, n, e.now);
      GoingCounted(s, k, n, e.now);
      Added(entry, i, e.packet[9..]);
      hide Count, Join, Going, Entry.With;
      assert Step(s, e) == Placed(s, k, entry.With(i, e.packet[9..]), e.now) by { StepIsPlaced(s, e); }
    }
  }

  lemma StepIsPlaced(s: State, e: Event)
    requires WellFormed(e.packet)
    ensures var k, i, n := Key(e.packet[0], Get32(e.packet, 1)), Get16(e.packet, 5), Get16(e.packet, 7);
      Step(s, e) == Placed(s, k, Going(s, k, n, e.now).With(i, e.packet[9..]), e.now)
  {
  }

  lemma GoingCounted(s: State, k: Key, n: nat, now: int)
    requires Counted(s)
    ensures var e := Going(s, k, n, now); e.received == Count(e.chunks)
  {
    if Kept(s, k, n).None? { CountFresh(n, Fresh(n, now).chunks); }
  }

  /** Whatever comes, an entry's count is that of the chunks it has, and it is not full. */
  lemma AnyPacketCounts(s: State, e: Event)
    requires Counted(s)
    ensures Counted(Step(s, e))
  {
    if WellFormed(e.packet) {
      var k, i, n := Key(e.packet[0], Get32(e.packet, 1)), Get16(e.packet, 5), Get16(e.packet, 7);
      GoingCounted(s, k, n, e.now);
      Added(Going(s, k, n, e.now), i, e.packet[9..]);
      StepIsPlaced(s, e);
      hide Count, Join, Going, Entry.With, Step;
    }
  }

  lemma Added(e: Entry, i: nat, c: seq<byte>)
    requires i < e.Total() && e.received == Count(e.chunks)
    ensures var e' := e.With(i, c);
      && e'.received == Count(e'.chunks) <= e.Total() == e'.Total() && e'.createdMs == e.createdMs
      && (forall j | 0 <= j < e.Total() ::
            e'.chunks[j] == if j == i && e.chunks[j].None? then Some(c) else e.chunks[j])
      && (e'.received == e.Total() <==> forall j | 0 <= j < e.Total() && j != i :: e.chunks[j].Some?)
  {
    if e.chunks[i].None? { CountWith(e.chunks, i, c); }
    CountBound(e.With(i, c).chunks);
  }

  // ----- every frame that arrives is shown -----

  ghost predicate Arrived(sent: Sent, events: seq<Event>, k: Key, i: nat)
    requires SentOk(sent)
  {
    exists e | e in events :: PacketOf(sent, e.packet, k, DataOf(i))
  }

  predicate ShownSince(s: State, from: nat, k: Key)
  {
    exists j | from <= j < |s.shown| :: s.shown[j].key == k
  }

  predicate HasChunk(s: State, k: Key, i: nat)
  {
    k in s.frameBuffer && i < s.frameBuffer[k].Total() && s.frameBuffer[k].chunks[i].Some?
  }

  /** Completing another frame drops the entry of frame `k`, begun more than five seconds before. */
  ghost predicate AgesOut(s: State, e: Event, k: Key)
  {
    && k in s.frameBuffer && s.frameBuffer[k].createdMs < e.now - 5000
    && |Step(s, e).shown| > |s.shown| && Step(s, e).shown[|s.shown|].key != k
  }

  /** How far frame `k` has come after `events`. */
  ghost predicate Tracked(sent: Sent, s: State, from: nat, events: seq<Event>, k: Key)
    requires SentOk(sent) && k in sent
  {
    var n := ChunkCount(|sent[k]|);
    && from <= |s.shown|
    && (ShownSince(s, from, k) || forall i: nat | i < n && Arrived(sent, events, k, i) :: HasChunk(s, k, i))
    && (ShownSince(s, from, k) ==> forall i: nat | i < n :: Arrived(sent, events, k, i))
    && (forall i: nat | HasChunk(s, k, i) :: Arrived(sent, events, k, i))
  }

  lemma PacketOfOne(sent: Sent, packet: seq<byte>, k: Key, a: Arrival, k': Key, a': Arrival)
    requires SentOk(sent) && PacketOf(sent, packet, k, a) && PacketOf(sent, packet, k', a')
    ensures k == k' && a == a'
  {
    ReadsPacket(packet, k.monitor, k.frame, sent[k], a);
    ReadsPacket(packet, k'.monitor, k'.frame, sent[k'], a');
  }

  lemma ArrivedNext(sent: Sent, events: seq<Event>, e: Event, k: Key, i: nat, k': Key, a: Arrival)
    requires SentOk(sent) && PacketOf(sent, e.packet, k', a)
    ensures Arrived(sent, events + [e], k, i) <==> Arrived(sent, events, k, i) || (k' == k && a == DataOf(i))
  {
    hide PacketOf;
    if Arrived(sent, events + [e], k, i) {
      var e' :| e' in events + [e] && PacketOf(sent, e'.packet, k, DataOf(i));
      if e' == e { PacketOfOne(sent, e.packet, k, DataOf(i), k', a); }
    }
    if Arrived(sent, events, k, i) {
      var e' :| e' in events && PacketOf(sent, e'.packet, k, DataOf(i));
      assert e' in events + [e];
    }
    assert e in events + [e];
  }

  lemma StepTracks(sent: Sent, s: State, from: nat, events: seq<Event>, e: Event, k: Key)
    requires SentOk(sent) && Inv(sent, s) && FromHost(sent, e.packet) && k in sent
    requires Tracked(sent, s, from, events, k) && !AgesOut(s, e, k)
    ensures Tracked(sent, Step(s, e), from, events + [e], k)
  {
    hide IsPacket, Step, Placed, EntryOk, EntryFor, Inv, Tracked, Arrived, Chunk, ShownSince, AgesOut;
    var k', a :| PacketOf(sent, e.packet, k', a);
    var data, entry := sent[k'], EntryFor(sent, s, k', e.now);
    StepIs(sent, s, e, k', a);
    FromKnown(sent, s, from, events, k);
    var events' := events + [e];
    forall i: nat ensures Arrived(sent, events', k, i) <==> Arrived(sent, events, k, i) || (k' == k && a == DataOf(i)) {
      ArrivedNext(sent, events, e, k, i, k', a);
    }
    if a.ParityOf? {
      AsBefore(sent, s, s, from, events, events', k);
    } else if k' == k {
      PlacedHere(sent, s, from, events, events', k, a.i, e.now);
    } else {
      PlacedElsewhere(s, e, from, k, k', entry.With(a.i, Chunk(data, a.i)));
      AsBefore(sent, s, Step(s, e), from, events, events', k);
    }
  }

  lemma FromKnown(sent: Sent, s: State, from: nat, events: seq<Event>, k: Key)
    requires SentOk(sent) && k in sent && Tracked(sent, s, from, events, k)
    ensures from <= |s.shown|
  {
  }

  /** Nothing of frame `k` came in, and its entry is untouched. */
  lemma AsBefore(sent: Sent, s: State, s': State, from: nat, events: seq<Event>, events': seq<Event>, k: Key)
    requires SentOk(sent) && k in sent && Tracked(sent, s, from, events, k)
    requires forall i: nat :: Arrived(sent, events', k, i) <==> Arrived(sent, events, k, i)
    requires from <= |s'.shown| && (ShownSince(s', from, k) <==> ShownSince(s, from, k))
    requires k in s'.frameBuffer <==> k in s.frameBuffer
    requires k in s.frameBuffer ==> s'.frameBuffer[k] == s.frameBuffer[k]
    ensures Tracked(sent, s', from, events', k)
  {
    hide Arrived, ChunkCount, ShownSince;
    assert forall i: nat :: HasChunk(s', k, i) <==> HasChunk(s, k, i);
  }

  /** A packet of another frame leaves this one as it is, unless it ages it out. */
  lemma PlacedElsewhere(s: State, e: Event, from: nat, k: Key, k': Key, entry: Entry)
    requires k != k' && from <= |s.shown| && Step(s, e) == Placed(s, k', entry, e.now) && !AgesOut(s, e, k)
    ensures var s' := Step(s, e);
      && from <= |s'.shown| && (ShownSince(s', from, k) <==> ShownSince(s, from, k))
      && (k in s'.frameBuffer <==> k in s.frameBuffer)
      && (k in s.frameBuffer ==> s'.frameBuffer[k] == s.frameBuffer[k])
  {
    hide Join, Step;
    var s' := Step(s, e);
    if ShownSince(s, from, k) {
      var j :| from <= j < |s.shown| && s.shown[j].key == k;
      assert s'.shown[j].key == k;
    }
  }

  lemma PlacedHere(sent: Sent, s: State, from: nat, events: seq<Event>, events': seq<Event>, k: Key,
      i: nat, now: int)
    requires SentOk(sent) && k in sent && Tracked(sent, s, from, events, k)
    requires var data := sent[k];
      i < ChunkCount(|data|) && MAX_UDP_PAYLOAD * i < |data| && EntryOk(EntryFor(sent, s, k, now), data)
    requires forall j: nat :: Arrived(sent, events', k, j) <==> Arrived(sent, events, k, j) || j == i
    ensures var entry := EntryFor(sent, s, k, now).With(i, Chunk(sent[k], i));
      Tracked(sent, Placed(s, k, entry, now), from, events', k)
  {
    var n, before := ChunkCount(|sent[k]|), EntryFor(sent, s, k, now);
    var entry := before.With(i, Chunk(sent[k], i));
    WithKeeps(before, sent[k], i);
    hide Arrived, Chunk, Join, Count, ChunkCount;
    var s' := Placed(s, k, entry, now);
    assert forall j: nat | j < n :: before.chunks[j].Some? <==> HasChunk(s, k, j);
    if entry.received >= entry.Total() {
      assert s'.shown[|s.shown|].key == k;
      forall j: nat | j < n ensures Arrived(sent, events', k, j) { assert entry.chunks[j].Some?; }
    } else {
      if ShownSince(s, from, k) {
        assert s'.shown == s.shown;
      }
      forall j: nat | HasChunk(s', k, j) ensures Arrived(sent, events', k, j) {
        assert before.chunks[j].Some? || j == i;
      }
      if !ShownSince(s', from, k) {
        assert !ShownSince(s, from, k);
        forall j: nat | j < n && Arrived(sent, events', k, j) ensures HasChunk(s', k, j) {
          assert j == i || HasChunk(s, k, j);
          assert entry.chunks[j].Some?;
        }
      }
    }
  }

  lemma {:induction false} RunTracks(sent: Sent, s: State, events: seq<Event>, k: Key)
    requires SentOk(sent) && Inv(sent, s) && k in sent && k !in s.frameBuffer && AllFromHost(sent, events)
    requires forall i | 0 <= i < |events| :: !AgesOut(Run(s, events[..i]), events[i], k)
    ensures Tracked(sent, Run(s, events), |s.shown|, events, k) && Inv(sent, Run(s, events))
  {
    hide FromHost, Inv, Step, ChunkCount, AgesOut, Run, Tracked;
    if events == [] {
      NothingTracked(sent, s, k);
    } else {
      var last := |events| - 1;
      assert forall i | 0 <= i < last :: events[..last][..i] == events[..i];
      RunTracks(sent, s, events[..last], k);
      StepTracks(sent, Run(s, events[..last]), |s.shown|, events[..last], events[last], k);
      StepKeepsInv(sent, Run(s, events[..last]), events[last]);
      assert events[..last] + [events[last]] == events;
      LastStep(s, events);
    }
  }

  lemma NothingTracked(sent: Sent, s: State, k: Key)
    requires SentOk(sent) && k in sent && k !in s.frameBuffer
    ensures Run(s, []) == s && Tracked(sent, s, |s.shown|, [], k)
  {
  }

  lemma LastStep(s: State, events: seq<Event>)
    requires events != []
    ensures Run(s, events) == Step(Run(s, events[..|events| - 1]), events[|events| - 1])
  {
  }

  ghost predicate AllFromHost(sent: Sent, events: seq<Event>)
    requires SentOk(sent)
  {
    forall e | e in events :: FromHost(sent, e.packet)
  }

  /** A frame that is not aged out is shown exactly when all its chunks have arrived, however long they took. */
  lemma ShownIffArrived(sent: Sent, s: State, events: seq<Event>, k: Key)
    requires SentOk(sent) && Inv(sent, s) && k in sent && k !in s.frameBuffer && AllFromHost(sent, events)
    requires ChunkCount(|sent[k]|) > 0
    requires forall i | 0 <= i < |events| :: !AgesOut(Run(s, events[..i]), events[i], k)
    ensures ShownSince(Run(s, events), |s.shown|, k) <==> AllArrived(sent, events, k)
  {
    RunTracks(sent, s, events, k);
    var s', n := Run(s, events), ChunkCount(|sent[k]|);
    hide Arrived, Run;
    if !ShownSince(s', |s.shown|, k) && AllArrived(sent, events, k) {
      assert HasChunk(s', k, 0);
      var e := s'.frameBuffer[k];
      CountBound(e.chunks);
      forall i | 0 <= i < e.Total() ensures e.chunks[i].Some? { assert HasChunk(s', k, i); }
      assert false;
    }
  }

  ghost predicate AllArrived(sent: Sent, events: seq<Event>, k: Key)
    requires SentOk(sent) && k in sent
  {
    forall i: nat | i < ChunkCount(|sent[k]|) :: Arrived(sent, events, k, i)
  }

  /** An entry leaves the buffer exactly when its frame is shown or it is aged out, by whatever packet. */
  lemma LeavesWhen(s: State, e: Event, k: Key)
    requires k in s.frameBuffer
    ensures k !in Step(s, e).frameBuffer <==> AgesOut(s, e, k) || ShownSince(Step(s, e), |s.shown|, k)
    ensures !(AgesOut(s, e, k) && ShownSince(Step(s, e), |s.shown|, k))
  {
    hide Join, Unpacked;
    var t := Step(s, e);
    if |t.shown| > |s.shown| {
      assert t.shown[|s.shown|].key == k ==> ShownSince(t, |s.shown|, k);
    }
  }

  /** What ages out is gone without being shown: what came of it is lost. */
  lemma AgedOut(s: State, e: Event, k: Key)
    requires AgesOut(s, e, k)
    ensures k !in Step(s, e).frameBuffer && !ShownSince(Step(s, e), |s.shown|, k)
  {
    hide Step, AgesOut;
    assert k in s.frameBuffer by { AgesOutKnown(s, e, k); }
    LeavesWhen(s, e, k);
  }

  lemma AgesOutKnown(s: State, e: Event, k: Key)
    requires AgesOut(s, e, k)
    ensures k in s.frameBuffer
  {
  }

  // ----- every run, whatever ages out -----

  lemma {:induction false} RunAppend(s: State, a: seq<Event>, b: seq<Event>)
    ensures Run(s, a + b) == Run(Run(s, a), b)
  {
    hide Step;
    if b == [] {
      assert a + b == a;
    } else {
      var last := |b| - 1;
      RunAppend(s, a, b[..last]);
      assert (a + b)[..|a + b| - 1] == a + b[..last];
    }
  }

  /** From event `i`, where frame `k` is not begun, to event `j` all its chunks arrive and it is not aged out. */
  ghost predicate Complete(sent: Sent, s: State, events: seq<Event>, k: Key, i: nat, j: nat)
    requires SentOk(sent) && k in sent
  {
    && i <= j <= |events| && k !in Run(s, events[..i]).frameBuffer && AllArrived(sent, events[i..j], k)
    && forall m | i <= m < j :: !AgesOut(Run(s, events[..m]), events[m], k)
  }

  /** Where frame `k` was last not begun, up to event `j`. */
  lemma {:induction false} LastAbsent(s: State, events: seq<Event>, k: Key, j: nat) returns (i: nat)
    requires j <= |events| && k !in s.frameBuffer
    ensures i <= j && k !in Run(s, events[..i]).frameBuffer
    ensures forall m | i < m <= j :: k in Run(s, events[..m]).frameBuffer
  {
    hide Step;
    if k !in Run(s, events[..j]).frameBuffer {
      i := j;
    } else {
      i := LastAbsent(s, events, k, j - 1);
    }
  }

  lemma {:induction false} ShownGrows(s: State, events: seq<Event>, j: nat)
    requires j <= |events|
    ensures Run(s, events[..j]).shown <= Run(s, events).shown
    decreases |events|
  {
    if j < |events| {
      var last := |events| - 1;
      ShownGrows(s, events[..last], j);
      assert events[..last][..j] == events[..j];
      OneShown(Run(s, events[..last]), events[last]);
      hide Step;
    } else {
      assert events[..j] == events;
    }
  }

  lemma {:induction false} FirstShown(s: State, events: seq<Event>, k: Key, n: nat) returns (j: nat)
    requires n <= |events| && ShownSince(Run(s, events[..n]), |s.shown|, k)
    ensures j < n && !ShownSince(Run(s, events[..j]), |s.shown|, k) && ShownSince(Run(s, events[..j + 1]), |s.shown|, k)
  {
    hide Step;
    if n == 0 {
      assert false;
    } else if ShownSince(Run(s, events[..n - 1]), |s.shown|, k) {
      j := FirstShown(s, events, k, n - 1);
    } else {
      j := n - 1;
    }
  }

  lemma RunNext(s: State, events: seq<Event>, j: nat)
    requires j < |events|
    ensures Run(s, events[..j + 1]) == Step(Run(s, events[..j]), events[j])
  {
    hide Step;
    assert events[..j + 1][..j] == events[..j];
  }

  /** The states of a part of a run. */
  lemma RunPart(s: State, events: seq<Event>, i: nat, j: nat)
    requires i <= j <= |events|
    ensures Run(Run(s, events[..i]), events[i..j]) == Run(s, events[..j])
  {
    RunAppend(s, events[..i], events[i..j]);
    assert events[..i] + events[i..j] == events[..j];
  }

  lemma ShownInPart(sent: Sent, s: State, events: seq<Event>, k: Key, i: nat, j: nat)
    requires SentOk(sent) && Inv(sent, s) && k in sent && AllFromHost(sent, events) && ChunkCount(|sent[k]|) > 0
    requires i <= j <= |events| && k !in Run(s, events[..i]).frameBuffer
    requires forall m | i <= m < j :: !AgesOut(Run(s, events[..m]), events[m], k)
    ensures ShownSince(Run(s, events[..j]), |Run(s, events[..i]).shown|, k) <==> AllArrived(sent, events[i..j], k)
  {
    hide Step, FromHost, AgesOut, Inv, ShownSince, AllArrived, Run;
    var s1, part := Run(s, events[..i]), events[i..j];
    RunKeepsInv(sent, s, events[..i]);
    forall m | 0 <= m < |part| ensures !AgesOut(Run(s1, part[..m]), part[m], k) {
      RunPart(s, events, i, i + m);
      assert part[..m] == events[i..i + m] && part[m] == events[i + m];
    }
    ShownIffArrived(sent, s1, part, k);
    RunPart(s, events, i, j);
  }

  /** In any run at all a frame is shown exactly when after some point its chunks arrive before it ages out. */
  lemma ShownExactly(sent: Sent, s: State, events: seq<Event>, k: Key)
    requires SentOk(sent) && Inv(sent, s) && k in sent && k !in s.frameBuffer && AllFromHost(sent, events)
    requires ChunkCount(|sent[k]|) > 0
    ensures ShownSince(Run(s, events), |s.shown|, k) <==> exists i: nat, j: nat :: Complete(sent, s, events, k, i, j)
  {
    hide Step, FromHost, AgesOut, Inv, AllArrived, Run;
    assert events[..|events|] == events && Run(s, events[..0]) == s by { RunStarts(s, events); }
    if ShownSince(Run(s, events), |s.shown|, k) {
      var j := FirstShown(s, events, k, |events|);
      var i := LastAbsent(s, events, k, j);
      ShownBy(sent, s, events, k, i, j);
      assert Complete(sent, s, events, k, i, j + 1);
    }
    if i: nat, j: nat :| Complete(sent, s, events, k, i, j) {
      ShownInPart(sent, s, events, k, i, j);
      ShownGrows(s, events[..i], 0);
      assert events[..i][..0] == events[..0];
      ShownGrows(s, events, j);
      StillShown(Run(s, events[..j]), Run(s, events), |s.shown|, |Run(s, events[..i]).shown|, k);
    }
  }

  lemma RunStarts(s: State, events: seq<Event>)
    ensures events[..|events|] == events && Run(s, events[..0]) == s
  {
  }

  lemma StillShown(s: State, t: State, from: nat, later: nat, k: Key)
    requires ShownSince(s, later, k) && from <= later && s.shown <= t.shown
    ensures ShownSince(t, from, k)
  {
    var j :| later <= j < |s.shown| && s.shown[j].key == k;
    assert t.shown[j].key == k;
  }

  /** Event `j` is the first to show frame `k`, which was last not begun before event `i`. */
  lemma ShownBy(sent: Sent, s: State, events: seq<Event>, k: Key, i: nat, j: nat)
    requires SentOk(sent) && Inv(sent, s) && k in sent && AllFromHost(sent, events) && ChunkCount(|sent[k]|) > 0
    requires i <= j < |events| && k !in Run(s, events[..i]).frameBuffer
    requires forall m | i < m <= j :: k in Run(s, events[..m]).frameBuffer
    requires !ShownSince(Run(s, events[..j]), |s.shown|, k) && ShownSince(Run(s, events[..j + 1]), |s.shown|, k)
    ensures AllArrived(sent, events[i..j + 1], k)
    ensures forall m | i <= m <= j :: !AgesOut(Run(s, events[..m]), events[m], k)
  {
    hide Step, FromHost, AgesOut, Inv, AllArrived, Run;
    ShownNow(s, events, k, j);
    forall m | i <= m <= j ensures !AgesOut(Run(s, events[..m]), events[m], k) {
      var before := Run(s, events[..m]);
      if AgesOut(before, events[m], k) {
        AgesOutKnown(before, events[m], k);
        AgedOut(before, events[m], k);
        RunNext(s, events, m);
        assert false;
      }
    }
    ShownInPart(sent, s, events, k, i, j + 1);
    ShownGrows(s, events[..j], i);
    assert events[..j][..i] == events[..i];
    var u, v, w := Run(s, events[..i]), Run(s, events[..j]), Run(s, events[..j + 1]);
    StillShown(w, w, |u.shown|, |v.shown|, k);
  }

  lemma ShownNow(s: State, events: seq<Event>, k: Key, j: nat)
    requires j < |events|
    requires !ShownSince(Run(s, events[..j]), |s.shown|, k) && ShownSince(Run(s, events[..j + 1]), |s.shown|, k)
    ensures ShownSince(Run(s, events[..j + 1]), |Run(s, events[..j]).shown|, k)
  {
    hide Step, Run;
    RunNext(s, events, j);
    OneShown(Run(s, events[..j]), events[j]);
    var before, t := Run(s, events[..j]), Run(s, events[..j + 1]);
    var x :| |s.shown| <= x < |t.shown| && t.shown[x].key == k;
    assert forall y | |s.shown| <= y < |before.shown| :: t.shown[y] == before.shown[y] && before.shown[y].key != k;
    assert x >= |before.shown|;
  }

  lemma OneShown(s: State, e: Event)
    ensures s.shown <= Step(s, e).shown && |Step(s, e).shown| <= |s.shown| + 1
  {
    hide Join, Unpacked, Cleaned;
  }

  // ----- the program -----

  class Program {
    var frameBuffer: map<Key, Entry>
    var shown: seq<Shown>

    ghost function View(): State
      reads this
    {
      State(frameBuffer, shown)
    }

    constructor ()
      ensures View() == State(map[], [])
    {
      frameBuffer, shown := map[], [];
    }

    method OnUdpPacket(packet: seq<byte>, now: int)
      modifies this
      ensures View() == old(Step(View(), Event(packet, now)))
    {
      if |packet| < VIDEO_HEADER_SIZE { return; }
      var h := Unpacked(packet);
      var chunkData := packet[VIDEO_HEADER_SIZE..];
      if h.count == 0 || h.index >= h.count { return; }
      var key := Key(h.monitor, h.frame);
      if key in frameBuffer && frameBuffer[key].Total() != h.count {
        frameBuffer := frameBuffer - {key};
      }
      if key !in frameBuffer {
        frameBuffer := frameBuffer[key := Fresh(h.count, now)];
      }
      var entry := frameBuffer[key];
      if entry.chunks[h.index].None? {
        entry := Entry(entry.chunks[h.index := Some(chunkData)], entry.received + 1, entry.createdMs);
        frameBuffer := frameBuffer[key := entry];
      }
      if entry.received >= entry.Total() {
        var fullFrame := Concat(entry.chunks);
        frameBuffer := frameBuffer - {key};
        shown := shown + [Shown(key, fullFrame)];
        CleanupFrameBuffer(now);
      }
    }

    method CleanupFrameBuffer(now: int)
      modifies `frameBuffer
      ensures frameBuffer == old(Cleaned(frameBuffer, now - MAX_AGE_MS))
    {
      var cutoff := now - MAX_AGE_MS;
      var keys := frameBuffer.Keys;
      while keys != {}
        invariant keys <= frameBuffer.Keys <= old(frameBuffer.Keys)
        invariant forall k | k in frameBuffer :: frameBuffer[k] == old(frameBuffer)[k]
        invariant forall k | k in old(frameBuffer) && k !in keys ::
                    k in frameBuffer <==> old(frameBuffer)[k].createdMs >= cutoff
        decreases |keys|
      {
        var key :| key in keys;
        if frameBuffer[key].createdMs < cutoff {
          frameBuffer := frameBuffer - {key};
        }
        keys := keys - {key};
      }
    }
  }

  method Concat(chunks: seq<Option<seq<byte>>>) returns (whole: seq<byte>)
    ensures whole == Join(chunks)
  {
    whole := [];
    for i := 0 to |chunks|
      invariant whole == Join(chunks[..i])
    {
      assert chunks[..i + 1][..i] == chunks[..i];
      match chunks[i]
      case Some(c) => whole := whole + c;
      case None =>
    }
    assert chunks[..|chunks|] == chunks;
  }
}
