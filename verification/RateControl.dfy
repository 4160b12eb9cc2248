/** The adaptive bitrate of a client: cut at once when the link is congested, raised slowly while it is clean. */
module RateControl {

  const FLOOR: real := 0.05
  const MAX_FRAME_DELAY_MS: int := 250
  const STALL_MS: int := 1500
  const WINDOW_MS: int := 1000
  const CLEAN_MS: int := 4000

  function Min(a: real, b: real): real { if a < b then a else b }

  function Max(a: real, b: real): real { if a < b then b else a }

  function Cut(scale: real): real { Max(FLOOR, scale * 0.7) }

  function Raised(scale: real): real { Min(1.0, scale * 1.1 + 0.02) }

  // ----- repeated changes -----

  /** `x * base^n`. */
  function Scaled(x: real, base: real, n: nat): real
  {
    if n == 0 then x else base * Scaled(x, base, n - 1)
  }

  function RaisedBy(n: nat, scale: real): real
  {
    if n == 0 then scale else Raised(RaisedBy(n - 1, scale))
  }

  function CutBy(n: nat, scale: real): real
  {
    if n == 0 then scale else Cut(CutBy(n - 1, scale))
  }

  lemma {:induction false} RaisesAddUp(n: nat, scale: real)
    requires 0.0 <= scale <= 1.0
    ensures RaisedBy(n, scale) == Min(1.0, Scaled(scale + 0.2, 1.1, n) - 0.2)
  {
    if n > 0 { RaisesAddUp(n - 1, scale); }
  }

  lemma {:induction false} CutsAddUp(n: nat, scale: real)
    requires FLOOR <= scale <= 1.0
    ensures CutBy(n, scale) == Max(0.05, Scaled(scale, 0.7, n))
  {
    if n > 0 { CutsAddUp(n - 1, scale); }
  }

  /** Seventeen raises take the floor to the full rate, and no fewer do. */
  lemma FloorToFull(n: nat)
    ensures RaisedBy(n, FLOOR) == 1.0 <==> n >= 17
  {
    RaisesAddUp(n, FLOOR);
    SixteenRaises();
    if n >= 17 { Grows(0.25, 17, n); } else { Grows(0.25, n, 16); }
  }

  /** Nine cuts take the full rate to the floor, and no fewer do. */
  lemma FullToFloor(n: nat)
    ensures CutBy(n, 1.0) == FLOOR <==> n >= 9
  {
    CutsAddUp(n, 1.0);
    EightCuts();
    if n >= 9 { Shrinks(1.0, 9, n); } else { Shrinks(1.0, n, 8); }
  }

  lemma SixteenRaises()
    ensures 1.1 < Scaled(0.25, 1.1, 16) < 1.15 && Scaled(0.25, 1.1, 17) > 1.21
  {
    FourMore(0.25, 1.1, 0);
    FourMore(0.25, 1.1, 4);
    FourMore(0.25, 1.1, 8);
    FourMore(0.25, 1.1, 12);
    assert Scaled(0.25, 1.1, 17) == 1.1 * Scaled(0.25, 1.1, 16);
  }

  lemma EightCuts()
    ensures Scaled(1.0, 0.7, 8) > 0.0576 && Scaled(1.0, 0.7, 9) < 0.0404
  {
    FourMore(1.0, 0.7, 0);
    FourMore(1.0, 0.7, 4);
    assert Scaled(1.0, 0.7, 9) == 0.7 * Scaled(1.0, 0.7, 8);
  }

  lemma FourMore(x: real, base: real, n: nat)
    ensures Scaled(x, base, n + 4) == base * (base * (base * (base * Scaled(x, base, n))))
  {
    assert Scaled(x, base, n + 2) == base * (base * Scaled(x, base, n));
  }

  lemma {:induction false} Grows(x: real, m: nat, n: nat)
    requires m <= n && x >= 0.0
    ensures 0.0 <= Scaled(x, 1.1, m) <= Scaled(x, 1.1, n)
    decreases n
  {
    if n > 0 {
      if m < n { Grows(x, m, n - 1); } else { Grows(x, m - 1, m - 1); }
    }
  }

  lemma {:induction false} Shrinks(x: real, m: nat, n: nat)
    requires m <= n && x >= 0.0
    ensures 0.0 <= Scaled(x, 0.7, n) <= Scaled(x, 0.7, m)
    decreases n
  {
    if n > 0 {
      if m < n { Shrinks(x, m, n - 1); } else { Shrinks(x, m - 1, m - 1); }
    }
  }

  // ----- the changes of a run -----

  datatype Change = CutAt(at: int) | RaiseAt(at: int)

  const START_SCALE: real := 0.5

  /** The rate the changes of a run lead to. */
  function ScaleAfter(log: seq<Change>): (scale: real)
    ensures FLOOR <= scale <= 1.0
  {
    if log == [] then START_SCALE
    else
      var before := ScaleAfter(log[..|log| - 1]);
      if log[|log| - 1].CutAt? then Cut(before) else Raised(before)
  }

  /** Changes are a second apart at least, and a raise comes four seconds or more after every cut before it. */
  ghost predicate Paced(log: seq<Change>)
  {
    && (forall i, j | 0 <= i < j < |log| :: log[j].at - log[i].at >= WINDOW_MS * (j - i))
    && (forall i, j | 0 <= i < j < |log| && log[i].CutAt? && log[j].RaiseAt? :: log[j].at - log[i].at >= CLEAN_MS)
  }

  /** What the controller's fields are after the changes `log`; a window starts at the last one or later. */
  ghost predicate LogOk(log: seq<Change>, scale: real, lastCut: int, windowStart: int)
  {
    && scale == ScaleAfter(log) && Paced(log)
    && (log != [] ==> 0 < log[|log| - 1].at <= windowStart)
    && (forall k | 0 <= k < |log| && log[k].CutAt? :: log[k].at <= lastCut)
  }

  ghost predicate NoCuts(log: seq<Change>)
  {
    forall c | c in log :: c.RaiseAt?
  }

  lemma PacedNext(log: seq<Change>, c: Change)
    requires Paced(log) && (log != [] ==> c.at - log[|log| - 1].at >= WINDOW_MS)
    requires c.RaiseAt? ==> forall k | 0 <= k < |log| && log[k].CutAt? :: c.at - log[k].at >= CLEAN_MS
    ensures Paced(log + [c])
  {
    var last := |log| - 1;
    forall i, j | 0 <= i < j < |log| + 1 ensures (log + [c])[j].at - (log + [c])[i].at >= WINDOW_MS * (j - i) {
      if j == |log| && i < last { assert log[last].at - log[i].at >= WINDOW_MS * (last - i); }
    }
  }

  lemma ScaleNext(log: seq<Change>, c: Change)
    ensures ScaleAfter(log + [c]) == if c.CutAt? then Cut(ScaleAfter(log)) else Raised(ScaleAfter(log))
  {
    assert (log + [c])[..|log|] == log;
  }

  lemma LogNext(log: seq<Change>, scale: real, lastCut: int, windowStart: int, c: Change)
    requires LogOk(log, scale, lastCut, windowStart) && c.at - windowStart >= WINDOW_MS && windowStart >= lastCut &&
        c.at > 0
    requires c.RaiseAt? ==> c.at - lastCut >= CLEAN_MS
    ensures LogOk(log + [c], if c.CutAt? then Cut(scale) else Raised(scale), if c.CutAt? then c.at else lastCut, c.at)
    ensures c.RaiseAt? && NoCuts(log) ==> NoCuts(log + [c])
  {
    hide Paced, ScaleAfter, Cut, Raised;
    ScaleNext(log, c);
    PacedNext(log, c);
  }

  /** The first frame starts the first window; there is no change yet. */
  lemma LogStarts(log: seq<Change>, scale: real, lastCut: int, now: int)
    requires LogOk(log, scale, lastCut, 0)
    ensures LogOk(log, scale, now, now)
  {
  }

  lemma LogLater(log: seq<Change>, scale: real, lastCut: int, windowStart: int, now: int)
    requires LogOk(log, scale, lastCut, windowStart) && windowStart <= now
    ensures LogOk(log, scale, lastCut, now)
  {
  }

  lemma {:induction false} OnlyRaises(log: seq<Change>, from: nat, last: nat)
    requires from <= last < |log| && forall k | from < k <= last :: log[k].RaiseAt?
    ensures ScaleAfter(log[..last + 1]) == RaisedBy(last - from, ScaleAfter(log[..from + 1]))
    decreases last
  {
    if last > from {
      OnlyRaises(log, from, last - 1);
      assert log[..last + 1][..last] == log[..last];
    }
  }

  /** From a cut to the floor, the full rate takes at least twenty seconds. */
  lemma RecoveryTakesTwentySeconds(log: seq<Change>, cut: nat, full: nat)
    requires Paced(log) && cut < full < |log| && log[cut].CutAt? && forall k | cut < k <= full :: log[k].RaiseAt?
    requires ScaleAfter(log[..cut + 1]) == FLOOR && ScaleAfter(log[..full + 1]) == 1.0
    ensures log[full].at - log[cut].at >= 20000 && FLOOR == 0.05
  {
    OnlyRaises(log, cut, full);
    FloorToFull(full - cut);
    assert log[cut + 1].at - log[cut].at >= CLEAN_MS;
    assert log[full].at - log[cut + 1].at >= WINDOW_MS * (full - cut - 1);
  }

  // ----- the controller -----

  class Controller {
    var scale: real
    var sent: nat
    var lost: nat
    var worstDelay: int
    var stalled: bool
    /** Zero until the first frame is sent. */
    var windowStart: int
    var lastCut: int
    /** Zero until the client's first ACK. */
    var lastAck: int

    ghost var log: seq<Change>

    ghost predicate Valid()
      reads this
    {
      && windowStart >= 0 && lastAck >= 0 && lastCut <= windowStart && worstDelay >= 0
      && LogOk(log, scale, lastCut, windowStart)
      && (lastAck == 0 ==> lost == 0 && worstDelay == 0 && !stalled && NoCuts(log))
    }

    constructor ()
      ensures Valid() && log == [] && scale == 0.5
    {
      scale, sent, lost, worstDelay, stalled := START_SCALE, 0, 0, 0, false;
      windowStart, lastCut, lastAck := 0, 0, 0;
      log := [];
    }

    predicate Lossy(more: nat)
      reads this
    {
      lost >= 2 && lost * 20 > sent + more
    }

    predicate Stalled(now: int)
      reads this
    {
      stalled || (lastAck != 0 && now - lastAck > STALL_MS)
    }

    /** Whether the frame being sent at `now` closes the window, and what is then decided. */
    ghost predicate Closes(now: int)
      reads this
    {
      windowStart != 0 && now - windowStart >= WINDOW_MS
    }

    ghost predicate Cuts(now: int)
      reads this
    {
      Closes(now) && (Lossy(1) || Stalled(now) || worstDelay > MAX_FRAME_DELAY_MS) && now - lastCut >= WINDOW_MS
    }

    ghost predicate Raises(now: int)
      reads this
    {
      && Closes(now) && !Lossy(1) && !Stalled(now) && worstDelay <= MAX_FRAME_DELAY_MS
      && sent + 1 >= 5 && scale < 1.0 && now - lastCut >= CLEAN_MS
    }

    method RateOnSent(now: int)
      requires Valid() && now > 0 && now >= windowStart
      modifies this
      ensures Valid() && lastAck == old(lastAck)
      ensures log == old(log) + if old(Cuts(now)) then [CutAt(now)] else if old(Raises(now)) then [RaiseAt(now)] else []
      ensures old(Cuts(now)) <==>
        && old(windowStart) != 0 && now - old(windowStart) >= 1000 && now - old(lastCut) >= 1000
        && ((old(lost) >= 2 && 20 * old(lost) > old(sent) + 1) || old(worstDelay) > 250
            || old(stalled) || (lastAck != 0 && now - lastAck > 1500))
      ensures old(Raises(now)) <==>
        && old(windowStart) != 0 && now - old(windowStart) >= 1000 && now - old(lastCut) >= 4000
        && (old(lost) < 2 || 20 * old(lost) <= old(sent) + 1) && old(worstDelay) <= 250
        && !old(stalled) && (lastAck == 0 || now - lastAck <= 1500) && old(sent) >= 4 && old(scale) < 1.0
      ensures windowStart == if old(windowStart) == 0 || old(Closes(now)) then now else old(windowStart)
      ensures old(Closes(now)) ==> sent == 0 && lost == 0 && worstDelay == 0 && !stalled
      ensures !old(Closes(now)) ==>
        sent == old(sent) + 1 && lost == old(lost) && worstDelay == old(worstDelay) && stalled == old(Stalled(now))
    {
      hide LogOk, NoCuts;
      if windowStart == 0 {
        LogStarts(log, scale, lastCut, now);
        windowStart, lastCut := now, now;
      }
      sent := sent + 1;
      if lastAck != 0 && now - lastAck > STALL_MS { stalled := true; }
      if now - windowStart < WINDOW_MS { return; }
      var lossy := lost >= 2 && lost * 20 > sent;
      var queued := stalled || worstDelay > MAX_FRAME_DELAY_MS;
      Decide(lossy, queued, now);
      windowStart := now;
      sent, lost := 0, 0;
      worstDelay := 0;
      stalled := false;
    }

    /** The decision at the end of a window. */
    method Decide(lossy: bool, queued: bool, now: int)
      requires Valid() && windowStart > 0 && now - windowStart >= WINDOW_MS && (lossy || queued ==> lastAck != 0)
      modifies `scale, `lastCut, `log
      ensures LogOk(log, scale, lastCut, now) && lastCut <= now
      ensures !lossy && !queued && old(NoCuts(log)) ==> NoCuts(log)
      ensures log == old(log) + if (lossy || queued) && now - old(lastCut) >= WINDOW_MS then [CutAt(now)]
                                else if !lossy && !queued && sent >= 5 && old(scale) < 1.0 &&
                                        now - old(lastCut) >= CLEAN_MS
                                then [RaiseAt(now)] else []
    {
      hide LogOk, NoCuts;
      if (lossy || queued) && now - lastCut >= WINDOW_MS {
        LogNext(log, scale, lastCut, windowStart, CutAt(now));
        scale := Max(FLOOR, scale * 0.7);
        lastCut := now;
        log := log + [CutAt(now)];
      } else if !lossy && !queued && sent >= 5 && scale < 1.0 && now - lastCut >= CLEAN_MS {
        LogNext(log, scale, lastCut, windowStart, RaiseAt(now));
        scale := Min(1.0, scale * 1.1 + 0.02);
        log := log + [RaiseAt(now)];
      } else {
        LogLater(log, scale, lastCut, windowStart, now);
      }
    }

    /** The share of FRAME_ACK: the frames it shows lost, and its delay if the ring still has it. */
    method OnAck(missed: nat, delay: int, now: int)
      requires Valid() && now > 0 && delay >= 0
      modifies `lost, `worstDelay, `lastAck
      ensures Valid() && lost == old(lost) + missed && lastAck == now
      ensures worstDelay == if delay > old(worstDelay) then delay else old(worstDelay)
    {
      lost := lost + missed;
      if delay > worstDelay { worstDelay := delay; }
      lastAck := now;
    }

    /** A restart pauses the ACKs of a client that sends them; that is no stall. */
    method OnStreamStart(now: int)
      requires Valid() && now > 0
      modifies `lastAck
      ensures Valid() && lastAck == if old(lastAck) != 0 then now else 0
    {
      if lastAck != 0 { lastAck := now; }
    }
  }
}
