/** One monitor's flow control: send times in a ring, the TCP queue, and what the ACKs say was lost. */
module Flow {
  import opened Bits

  const SLOTS: nat := 128
  const MAX_TCP_QUEUE_MS: int := 150
  const IDLE_MS: int := 1000

  // ----- the whole history of a stream, and the ring -----

  /** When each frame of a stream was sent: frame `first` and those after it. */
  datatype History = History(first: nat, times: seq<int>)
  {
    function Next(): nat {
      first + |times|
    }

    predicate Has(f: nat) {
      first <= f < Next()
    }

    function TimeOf(f: nat): int
      requires Has(f)
    {
      times[f - first]
    }

    function Then(now: int): History {
      History(first, times + [now])
    }

    ghost predicate Ordered() {
      forall f, g | first <= f <= g < Next() :: TimeOf(f) <= TimeOf(g)
    }
  }

  lemma OrderedNext(h: History, now: int)
    requires h.Ordered() && forall f | h.Has(f) :: h.TimeOf(f) <= now
    ensures h.Then(now).Ordered()
  {
    forall f, g | h.first <= f <= g < h.Next() + 1 ensures h.Then(now).TimeOf(f) <= h.Then(now).TimeOf(g) {
      if g < h.Next() { assert h.TimeOf(f) <= h.TimeOf(g); }
      else if f < h.Next() { assert h.TimeOf(f) <= now; }
    }
  }

  /** Two frames of the ring's window never share a slot. */
  lemma OneSlotEach(f: nat, g: nat, next: nat)
    requires f < next && g < next && next - f <= SLOTS && next - g <= SLOTS && f % SLOTS == g % SLOTS
    ensures f == g
  {
  }

  /** The newest frame before `next` that shares the ring slot of `f`. */
  function Newest(f: nat, next: nat): (g: nat)
    requires f < next
    ensures f <= g < next && next - g <= SLOTS && g % SLOTS == f % SLOTS
    ensures next - f <= SLOTS ==> g == f
  {
    next - 1 - (next - 1 - f) % SLOTS
  }

  /** The ring has the time of each of the last 128 frames. */
  ghost predicate RingOf(ring: seq<int>, h: History)
  {
    |ring| == SLOTS && forall f: nat | h.Has(f) && h.Next() - f <= SLOTS :: ring[f % SLOTS] == h.TimeOf(f)
  }

  lemma RingNext(ring: seq<int>, h: History, now: int)
    requires RingOf(ring, h)
    ensures RingOf(ring[h.Next() % SLOTS := now], h.Then(now))
  {
    var h' := h.Then(now);
    forall f: nat | h'.Has(f) && h'.Next() - f <= SLOTS
      ensures ring[h.Next() % SLOTS := now][f % SLOTS] == h'.TimeOf(f)
    {
      if f % SLOTS == h.Next() % SLOTS { OneSlotEach(f, h.Next(), h'.Next()); }
    }
  }

  /** What a slot says about a frame however old: the time of the newest frame that shares the slot. */
  lemma RingReads(ring: seq<int>, h: History, f: nat)
    requires RingOf(ring, h) && h.Has(f)
    ensures h.Has(Newest(f, h.Next())) && ring[f % SLOTS] == h.TimeOf(Newest(f, h.Next()))
  {
  }

  // ----- the TCP queue -----

  ghost predicate Increasing(q: seq<nat>)
  {
    forall i, j | 0 <= i < j < |q| :: q[i] < q[j]
  }

  /** The queue without the acknowledged frames at its front. */
  function Pop(q: seq<nat>, lastAck: nat): seq<nat>
  {
    if q != [] && q[0] <= lastAck then Pop(q[1..], lastAck) else q
  }

  lemma {:induction false} PopKeepsLater(q: seq<nat>, lastAck: nat)
    requires Increasing(q)
    ensures Increasing(Pop(q, lastAck))
    ensures forall f :: f in Pop(q, lastAck) <==> f in q && f > lastAck
  {
    if q != [] && q[0] <= lastAck {
      PopKeepsLater(q[1..], lastAck);
      assert q == [q[0]] + q[1..];
    }
  }

  /** The frames waiting for an ACK when the next one is about to be written. */
  function Waiting(q: seq<nat>, ackSeen: bool, lastAck: nat): seq<nat>
  {
    if ackSeen then Pop(q, lastAck) else []
  }

  /**
   * `q` is what the server remembers of `watched`, the frames written since the last one written before the stream's
   * first ACK: those, in order, less some that were acknowledged. Older ones may be there before the first frame.
   */
  ghost predicate QueueOf(q: seq<nat>, watched: set<nat>, h: History, ackSeen: bool, lastAck: nat)
  {
    && Increasing(q)
    && (h.times != [] ==> forall f | f in q :: h.Has(f) && f in watched)
    && forall f | f in watched :: h.Has(f) && (f in q || (ackSeen && f <= lastAck))
  }

  lemma QueueNext(q: seq<nat>, watched: set<nat>, h: History, ackSeen: bool, lastAck: nat, now: int)
    requires QueueOf(q, watched, h, ackSeen, lastAck) && (ackSeen ==> h.Has(lastAck))
    ensures var waiting := Waiting(q, ackSeen, lastAck);
      && (forall f | f in waiting :: h.Has(f))
      && QueueOf(waiting, if ackSeen then watched else {}, h.Then(now), ackSeen, lastAck)
      && QueueOf(waiting + [h.Next()], (if ackSeen then watched else {}) + {h.Next()}, h.Then(now), ackSeen, lastAck)
  {
    PopKeepsLater(q, lastAck);
    var waiting, next := Waiting(q, ackSeen, lastAck), h.Next();
    assert forall f :: f in waiting + [next] <==> f in waiting || f == next;
    forall i | 0 <= i < |waiting| ensures waiting[i] < next { assert h.Has(waiting[i]); }
    assert Increasing(waiting + [next]);
  }

  /** No watched frame went unacknowledged for more than 150 ms. */
  ghost predicate NoneLate(watched: set<nat>, h: History, lastAck: nat, now: int)
  {
    forall f | f in watched && f > lastAck :: h.Has(f) && now - h.TimeOf(f) <= 150
  }

  /**
   * While the oldest frame waiting is within 127 of the one about to be written, passing the age test means that no
   * watched frame has gone unacknowledged for more than 150 ms.
   */
  lemma NoneWaitsLong(q: seq<nat>, watched: set<nat>, h: History, lastAck: nat, now: int)
    requires QueueOf(q, watched, h, true, lastAck) && h.Has(lastAck) && h.Ordered()
    requires var waiting := Waiting(q, true, lastAck);
      waiting != [] ==>
        && h.Has(waiting[0]) && h.Next() - waiting[0] < SLOTS
        && now - h.Then(now).TimeOf(Newest(waiting[0], h.Next() + 1)) <= MAX_TCP_QUEUE_MS
    ensures NoneLate(watched, h.Then(now), lastAck, now)
  {
    PopKeepsLater(q, lastAck);
    var waiting := Waiting(q, true, lastAck);
    forall f | f in watched && f > lastAck ensures h.Has(f) && now - h.Then(now).TimeOf(f) <= MAX_TCP_QUEUE_MS {
      var i :| 0 <= i < |waiting| && waiting[i] == f;
      assert waiting[0] <= waiting[i];
      assert h.TimeOf(waiting[0]) <= h.TimeOf(f);
      assert h.Then(now).TimeOf(waiting[0]) == h.TimeOf(waiting[0]);
    }
  }

  /** At any distance: the limit is kept exactly when the oldest frame waiting keeps it. */
  lemma NoneLateIff(q: seq<nat>, watched: set<nat>, h: History, lastAck: nat, now: int)
    requires QueueOf(q, watched, h, true, lastAck) && h.Has(lastAck) && h.Ordered()
    ensures var waiting := Waiting(q, true, lastAck);
      && (waiting != [] ==> h.Has(waiting[0]))
      && (NoneLate(watched, h.Then(now), lastAck, now) <==>
          waiting == [] || now - h.TimeOf(waiting[0]) <= MAX_TCP_QUEUE_MS)
  {
    PopKeepsLater(q, lastAck);
    var waiting := Waiting(q, true, lastAck);
    if waiting != [] {
      var front := waiting[0];
      assert front in waiting && h.Then(now).TimeOf(front) == h.TimeOf(front);
      forall f | f in watched && f > lastAck ensures h.Has(f) && now - h.Then(now).TimeOf(f) <= now - h.TimeOf(front) {
        var i :| 0 <= i < |waiting| && waiting[i] == f;
        assert front <= waiting[i] && h.TimeOf(front) <= h.TimeOf(f);
      }
    }
  }

  /**
   * The time the age test reads for the oldest frame waiting: its own while it is less than 128 behind, otherwise that
   * of the frame a multiple of 128 after it; at a multiple of 128 that is the frame about to go, and any frame passes.
   */
  lemma AgeRead(h: History, front: nat, now: int)
    requires h.Has(front)
    ensures var d := h.Next() - front; var g := front + d / SLOTS * SLOTS;
      && h.Then(now).Has(g) && h.Then(now).TimeOf(Newest(front, h.Next() + 1)) == h.Then(now).TimeOf(g)
      && (d < SLOTS ==> g == front)
      && (d % SLOTS == 0 ==> g == h.Next() && now - h.Then(now).TimeOf(g) == 0)
  {
    var d := h.Next() - front;
    assert d == d / SLOTS * SLOTS + d % SLOTS;
  }

  // ----- the ACKs -----

  datatype Acks = NoAcks | Acks(first: nat, last: nat, advances: nat, lost: set<nat>, idle: nat)

  /** Each frame after the first ACK up to the last advanced, was reported lost, or was skipped while idle. */
  ghost predicate Accounted(a: Acks)
  {
    a.Acks? ==> && a.first <= a.last && a.last - a.first == a.advances + |a.lost| + a.idle
                && forall f | f in a.lost :: a.first < f < a.last
  }

  /** The frames an ACK of `f` skips. */
  ghost function Skipped(last: nat, f: nat): (s: set<nat>)
    ensures |s| == if f > last then f - last - 1 else 0
    ensures forall g :: g in s <==> last < g < f
    decreases f
  {
    if f <= last + 1 then {} else Skipped(last, f - 1) + {f - 1}
  }

  ghost function Acked(a: Acks, f: nat, recent: bool): Acks
  {
    match a
    case NoAcks => Acks(f, f, 0, {}, 0)
    case Acks(first, last, advances, lost, idle) =>
      if f <= last then a
      else if recent then Acks(first, f, advances + 1, lost + Skipped(last, f), idle)
      else Acks(first, f, advances + 1, lost, idle + (f - last - 1))
  }

  lemma AckedAccounted(a: Acks, f: nat, recent: bool)
    requires Accounted(a)
    ensures Accounted(Acked(a, f, recent))
    ensures a.Acks? && recent ==>
      |Acked(a, f, recent).lost| == |a.lost| + |Skipped(a.last, f)| && a.lost !! Skipped(a.last, f)
  {
    if a.Acks? && f > a.last {
      assert a.lost !! Skipped(a.last, f);
    }
  }

  class FlowState {
    const tcpMedia: bool
    const sentAt: array<int>
    var firstFrame: nat
    var lastSent: nat
    var lastAck: nat
    var ackSeen: bool
    var lastAckTime: int
    var tcpUnacked: seq<nat>

    /** Every send of the stream; the ring remembers the last 128. */
    ghost var history: History
    ghost var watched: set<nat>
    ghost var acks: Acks

    ghost predicate Valid()
      reads this, sentAt
    {
      && firstFrame >= 1000 && firstFrame == history.first && history.Ordered()
      && (history.times != [] ==> lastSent == history.Next() - 1)
      && sentAt.Length == SLOTS && RingOf(sentAt[..], history)
      && QueueOf(tcpUnacked, watched, history, ackSeen, lastAck)
      && Accounted(acks) && (ackSeen <==> acks.Acks?) && (ackSeen ==> acks.last == lastAck && history.Has(acks.first))
      && (ackSeen ==> history.Has(lastAck)) && (tcpMedia || tcpUnacked == [])
    }

    constructor (tcpMedia: bool, first: nat)
      requires first >= 1000
      ensures Valid() && this.tcpMedia == tcpMedia && history == History(first, []) && fresh(sentAt)
    {
      this.tcpMedia, sentAt := tcpMedia, new int[SLOTS](_ => 0);
      firstFrame, lastSent, lastAck, ackSeen, lastAckTime := first, 0, 0, false, 0;
      tcpUnacked := [];
      history, watched, acks := History(first, []), {}, NoAcks;
    }

    /** A stream starts: the flow state of the one before it is forgotten, its TCP queue is not. */
    method SendStreamStart(first: nat)
      requires Valid() && first >= 1000
      modifies this, sentAt
      ensures Valid() && history == History(first, []) && acks.NoAcks? && tcpUnacked == old(tcpUnacked)
    {
      firstFrame, lastSent, lastAck, ackSeen, lastAckTime := first, 0, 0, false, 0;
      forall i | 0 <= i < SLOTS { sentAt[i] := 0; }
      history, watched, acks := History(first, []), {}, NoAcks;
    }

    /**
     * The flow-control half of `send_video_packet`, for the next frame of the stream. `sent` is false when the frame
     * is dropped to let the TCP queue drain.
     */
    method SendVideoPacket(frame: nat, now: int) returns (sent: bool)
      requires Valid() && frame == history.Next()
      requires forall f | history.Has(f) :: history.TimeOf(f) <= now
      modifies this, sentAt
      ensures Valid() && history == old(history).Then(now) && lastSent == frame
      ensures ackSeen == old(ackSeen) && lastAck == old(lastAck) && acks == old(acks) && lastAckTime == old(lastAckTime)
      ensures !tcpMedia ==> sent && tcpUnacked == old(tcpUnacked) && watched == old(watched)
      ensures tcpMedia ==>
        var waiting := Waiting(old(tcpUnacked), ackSeen, lastAck);
        && (waiting != [] ==> old(history).Has(waiting[0]))
        && (sent <==> waiting == [] || now - history.TimeOf(Newest(waiting[0], history.Next())) <= MAX_TCP_QUEUE_MS)
        && tcpUnacked == (if sent then waiting + [frame] else waiting)
        && watched == (if ackSeen then old(watched) else {}) + (if sent then {frame} else {})
        && (sent && ackSeen && (waiting != [] ==> frame - waiting[0] < 128) ==>
            NoneLate(old(watched), history, lastAck, now))
        && (ackSeen ==>
              ((sent ==> NoneLate(old(watched), history, lastAck, now)) <==>
                || waiting == [] || now - old(history).TimeOf(waiting[0]) <= MAX_TCP_QUEUE_MS
                || now - history.TimeOf(Newest(waiting[0], history.Next())) > MAX_TCP_QUEUE_MS))
    {
      hide RingOf, QueueOf, Accounted, Pop, Newest, NoneLate, History.Ordered;
      ResetOnRestart(frame);
      ghost var before := history;
      RecordSend(frame, now);
      if tcpMedia {
        sent := QueueFrame(frame, now, before);
      } else {
        QueueLater(tcpUnacked, watched, before, ackSeen, lastAck, now);
        sent := true;
      }
    }

    /**
     * Afterwards no ACK is ahead of the frame. For a stream's frames that was so before and nothing changes: they are
     * numbered from 1000 at least, and only sent ones are acknowledged.
     */
    method ResetOnRestart(frame: nat)
      modifies `ackSeen, `lastAck
      ensures ackSeen ==> lastAck <= frame && frame > 0
      ensures frame > 0 && (old(ackSeen) ==> old(lastAck) <= frame) ==>
        ackSeen == old(ackSeen) && lastAck == old(lastAck)
    {
      if frame == 0 || (ackSeen && frame < lastAck) {
        ackSeen := false;
        lastAck := frame;
      }
    }

    method RecordSend(frame: nat, now: int)
      requires frame == history.Next() && sentAt.Length == SLOTS && RingOf(sentAt[..], history) && history.Ordered()
      requires forall f | history.Has(f) :: history.TimeOf(f) <= now
      modifies `lastSent, `history, sentAt
      ensures lastSent == frame && history == old(history).Then(now) && RingOf(sentAt[..], history) && history.Ordered()
    {
      RingNext(sentAt[..], history, now);
      OrderedNext(history, now);
      hide RingOf, History.Ordered;
      lastSent := frame;
      sentAt[frame % SLOTS] := now;
      history := history.Then(now);
    }

    /** The TCP branch: wait for the queue to drain, or write the frame. */
    method QueueFrame(frame: nat, now: int, ghost before: History) returns (sent: bool)
      requires sentAt.Length == SLOTS && RingOf(sentAt[..], history) && history == before.Then(now) &&
          frame == before.Next()
      requires QueueOf(tcpUnacked, watched, before, ackSeen, lastAck) && before.Ordered()
      requires ackSeen ==> before.Has(lastAck)
      modifies `tcpUnacked, `watched
      ensures QueueOf(tcpUnacked, watched, history, ackSeen, lastAck)
      ensures var waiting := Waiting(old(tcpUnacked), ackSeen, lastAck);
        && (waiting != [] ==> before.Has(waiting[0]))
        && (sent <==> waiting == [] || now - history.TimeOf(Newest(waiting[0], history.Next())) <= MAX_TCP_QUEUE_MS)
        && tcpUnacked == (if sent then waiting + [frame] else waiting)
        && watched == (if ackSeen then old(watched) else {}) + (if sent then {frame} else {})
        && (sent && ackSeen && (waiting != [] ==> frame - waiting[0] < 128) ==>
            NoneLate(old(watched), history, lastAck, now))
        && (ackSeen ==>
              ((sent ==> NoneLate(old(watched), history, lastAck, now)) <==>
                || waiting == [] || now - before.TimeOf(waiting[0]) <= MAX_TCP_QUEUE_MS
                || now - history.TimeOf(Newest(waiting[0], history.Next())) > MAX_TCP_QUEUE_MS))
    {
      QueueNext(tcpUnacked, watched, before, ackSeen, lastAck, now);
      ghost var onWire := watched;
      if ackSeen { NoneLateIff(tcpUnacked, watched, before, lastAck, now); }
      hide RingOf, QueueOf, Pop, NoneLate, History.Ordered;
      watched := if ackSeen then watched else {};
      PopAcked();
      if tcpUnacked != [] {
        var front := tcpUnacked[0];
        assert front in tcpUnacked && before.Has(front);
        RingReads(sentAt[..], history, front);
        if now - sentAt[front % SLOTS] > MAX_TCP_QUEUE_MS {
          assert watched == (if ackSeen then onWire else {}) + {};
          return false;
        }
      }
      sent := true;
      tcpUnacked := tcpUnacked + [frame];
      watched := watched + {frame};
    }

    method PopAcked()
      modifies `tcpUnacked
      ensures tcpUnacked == old(Waiting(tcpUnacked, ackSeen, lastAck))
    {
      if !ackSeen { tcpUnacked := []; }
      while tcpUnacked != [] && tcpUnacked[0] <= lastAck
        invariant ackSeen ==> Pop(tcpUnacked, lastAck) == old(Pop(tcpUnacked, lastAck))
        invariant !ackSeen ==> tcpUnacked == []
      {
        tcpUnacked := tcpUnacked[1..];
      }
    }

    /**
     * FRAME_ACK from a client that acknowledges only frames sent on this stream, or the previous one's. `lost` is what
     * is added to the window's count of lost frames, `delay` the time from send to ACK when the ring still has it.
     */
    method FrameAck(f: nat, now: int) returns (lost: nat, delay: Option<int>)
      requires Valid() && (f >= firstFrame ==> history.Has(f))
      modifies this`lastAck, this`ackSeen, this`lastAckTime, this`acks
      ensures Valid()
      ensures f < firstFrame ==> lost == 0 && delay.None? && unchanged(this)
      ensures f >= firstFrame ==>
        && acks == Acked(old(acks), f, now - old(lastAckTime) < 1000) && ackSeen && lastAckTime == now
        && lost == |acks.lost| - (if old(ackSeen) then |old(acks).lost| else 0)
        && (lost > 0 <==> old(ackSeen) && f > old(lastAck) + 1 && now - old(lastAckTime) < 1000)
        && (lost > 0 ==> lost == f - old(lastAck) - 1)
        && lastAck == (if old(ackSeen) && old(lastAck) > f then old(lastAck) else f)
        && delay == if history.Next() - f <= 128 then Some(now - history.TimeOf(f)) else None
    {
      lost, delay := 0, None;
      if f < firstFrame { return; }
      ghost var recent := now - lastAckTime < IDLE_MS;
      AckedAccounted(acks, f, recent);
      QueueAcked(tcpUnacked, watched, history, ackSeen, lastAck, f);
      RingReads(sentAt[..], history, f);
      hide RingOf, QueueOf, Accounted, History.Ordered;
      if ackSeen && f > lastAck + 1 && now - lastAckTime < IDLE_MS {
        lost := f - lastAck - 1;
      }
      if lastSent - f < SLOTS {
        delay := Some(now - sentAt[f % SLOTS]);
      }
      lastAck := if ackSeen && lastAck > f then lastAck else f;
      ackSeen := true;
      lastAckTime := now;
      acks := Acked(acks, f, recent);
    }
  }

  lemma QueueAcked(q: seq<nat>, watched: set<nat>, h: History, ackSeen: bool, lastAck: nat, f: nat)
    requires QueueOf(q, watched, h, ackSeen, lastAck)
    ensures QueueOf(q, watched, h, true, if ackSeen && lastAck > f then lastAck else f)
  {
  }

  lemma QueueLater(q: seq<nat>, watched: set<nat>, h: History, ackSeen: bool, lastAck: nat, now: int)
    requires QueueOf(q, watched, h, ackSeen, lastAck) && q == []
    ensures QueueOf(q, watched, h.Then(now), ackSeen, lastAck)
  {
  }

  // ----- the limit broken -----

  /** Frame 1000 goes at 1 ms, 1001 at 3 ms, and those from 1002 up to `next` are tried at 1000 ms. */
  function Tried(next: nat): History
    requires next >= 1002
  {
    History(1000, [1, 3] + seq(next - 1002, _ => 1000))
  }

  lemma TriedNext(next: nat)
    requires next >= 1002
    ensures var h := Tried(next);
      && h.Next() == next && h.Then(1000) == Tried(next + 1) && h.Has(1001) && h.TimeOf(1001) == 3
      && (forall f | h.Has(f) :: h.TimeOf(f) <= 1000)
      && (next > 1129 ==> h.TimeOf(1129) == 1000)
  {
  }

  /** What is read for 1001 when `frame` is about to go. */
  lemma Reads1001(frame: nat)
    requires 1001 < frame <= 1129
    ensures Waiting([1001], true, 1000) == [1001] && Newest(1001, frame + 1) == if frame < 1129 then 1001 else 1129
  {
  }

  /** Frame 1000 was acknowledged and 1001 waits; those behind it were dropped. */
  ghost predicate Stuck(flow: FlowState, next: nat)
    requires next >= 1002
    reads flow, flow.sentAt
  {
    && flow.Valid() && flow.tcpMedia && flow.ackSeen && flow.lastAck == 1000 && flow.tcpUnacked == [1001]
    && flow.history == Tried(next) && 1001 in flow.watched
  }

  method FirstSent() returns (flow: FlowState)
    ensures fresh(flow) && fresh(flow.sentAt) && flow.Valid() && flow.tcpMedia && flow.history == History(1000, [1])
    ensures flow.acks.NoAcks? && flow.tcpUnacked == [1000]
  {
    hide RingOf, QueueOf, NoneLate, Pop, Newest, Accounted, History.Ordered;
    flow := new FlowState(true, 1000);
    var sent := flow.SendVideoPacket(1000, 1);
    assert sent;
  }

  method FirstAcked(flow: FlowState)
    requires flow.Valid() && flow.history == History(1000, [1]) && flow.acks.NoAcks?
    modifies flow
    ensures flow.Valid() && flow.ackSeen && flow.lastAck == 1000
    ensures flow.history == old(flow.history) && flow.tcpUnacked == old(flow.tcpUnacked)
  {
    hide RingOf, QueueOf, Accounted, History.Ordered;
    var _, _ := flow.FrameAck(1000, 2);
  }

  method FirstTwo() returns (flow: FlowState)
    ensures fresh(flow) && fresh(flow.sentAt) && Stuck(flow, 1002)
  {
    assert Waiting([1000], true, 1000) == [];
    assert Tried(1002) == History(1000, [1, 3]) == History(1000, [1]).Then(3);
    hide FlowState.Valid, NoneLate, Pop, Waiting, Newest, Tried;
    flow := FirstSent();
    FirstAcked(flow);
    var sent := flow.SendVideoPacket(1001, 3);
    assert sent;
  }

  method Attempt(flow: FlowState, frame: nat) returns (sent: bool)
    requires 1002 <= frame <= 1129 && Stuck(flow, frame)
    modifies flow, flow.sentAt
    ensures sent <==> frame == 1129
    ensures if sent then flow.Valid() && flow.tcpUnacked == [1001, 1129] else Stuck(flow, frame + 1)
    ensures flow.history == Tried(frame + 1) && flow.lastSent == frame && flow.lastAck == 1000 && 1001 in flow.watched
  {
    Reads1001(frame);
    TriedNext(frame);
    TriedNext(frame + 1);
    hide *;
    sent := Send(flow, frame, Tried(frame));
  }

  method Send(flow: FlowState, frame: nat, ghost h: History) returns (sent: bool)
    requires flow.Valid() && flow.tcpMedia && flow.ackSeen && flow.tcpUnacked == [1001] && flow.lastAck == 1000
    requires h == flow.history && frame == h.Next() && forall f | h.Has(f) :: h.TimeOf(f) <= 1000
    requires Waiting([1001], true, 1000) == [1001] && 1001 < frame
    modifies flow, flow.sentAt
    ensures flow.Valid() && flow.history == h.Then(1000) && flow.lastSent == frame
    ensures flow.ackSeen && flow.lastAck == 1000 && (1001 in old(flow.watched) ==> 1001 in flow.watched)
    ensures flow.history.Has(Newest(1001, frame + 1))
    ensures sent <==> 1000 - flow.history.TimeOf(Newest(1001, frame + 1)) <= MAX_TCP_QUEUE_MS
    ensures flow.tcpUnacked == if sent then [1001, frame] else [1001]
  {
    hide FlowState.Valid, RingOf, QueueOf, NoneLate, Pop, Waiting, Newest, Accounted, History.Ordered;
    sent := flow.SendVideoPacket(frame, 1000);
  }

  /**
   * Frame 1001 is never acknowledged and the 127 frames behind it are dropped, but 1129 finds its own send time in the
   * slot of 1001 and is written while 1001 has waited for 997 ms.
   */
  method SentLate() returns (flow: FlowState, sent: bool)
    ensures fresh(flow) && flow.Valid() && sent && flow.lastSent == 1129 && flow.tcpUnacked == [1001, 1129]
    ensures flow.history.Has(1001) && 1000 - flow.history.TimeOf(1001) == 997
    ensures !NoneLate(flow.watched, flow.history, flow.lastAck, 1000)
  {
    flow := FirstTwo();
    hide FlowState.Valid;
    for frame := 1002 to 1129
      invariant fresh(flow) && fresh(flow.sentAt) && Stuck(flow, frame)
    {
      sent := Attempt(flow, frame);
    }
    sent := Attempt(flow, 1129);
  }
}
