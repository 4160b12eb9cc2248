/** A stream worker's loop: which captured frames reach the encoder, and when. Times are in microseconds. */
module Pacing {

  const IDR_GAP: int := 200000
  const KEEPALIVE: int := 1000000
  const REFINE_FRAMES: nat := 30

  /**
   * The loop's variables. Captured frames are numbered 1, 2, 3... in the order they come; `captures` is how many came,
   * and `lastFrame` is 0 while there is none. `lastSent` and `lastIdr` are 0 until the first.
   */
  datatype State = State(captures: nat, lastFrame: nat, unsent: bool, refineLeft: nat, lastIdr: int, lastSent: int,
                         force: bool, minInterval: int, frameNumber: nat)

  /** What one iteration meets: a new capture or none, requests since the last one, and what the encoder would give. */
  datatype Input = Input(now: int, captured: bool, capturing: bool, requested: bool, minInterval: int,
                         packets: nat, key: bool)

  datatype Action = Waits | Holds(frame: nat) | Encodes(frame: nat, resend: bool, idr: bool, number: nat)

  /** The state and the input an iteration decides on: a request is noticed, the new interval taken over. */
  function Seen(s: State, i: Input): State
  {
    s.(captures := if i.captured then s.captures + 1 else s.captures,
       force := s.force || i.requested,
       minInterval := i.minInterval)
  }

  /** While the capture is idle: whether the newest frame goes out (again). */
  predicate Resends(s: State, i: Input)
  {
    && s.lastFrame != 0 && i.capturing
    && (((s.unsent || s.refineLeft > 0) && i.now - s.lastSent >= s.minInterval)
        || (s.force && i.now - s.lastIdr >= IDR_GAP)
        || i.now - s.lastSent >= KEEPALIVE)
  }

  function Encoded(s: State, i: Input, frame: nat, resend: bool, mjpeg: bool): (r: (State, Action))
  {
    var idr := s.force && i.now - s.lastIdr >= IDR_GAP;
    var refine := if mjpeg then 0 else if !resend || (i.key && i.packets > 0) then REFINE_FRAMES
                  else if s.refineLeft > 0 then s.refineLeft - 1 else 0;
    (s.(lastFrame := frame, unsent := false, refineLeft := refine,
        force := s.force && !idr, lastIdr := if idr then i.now else s.lastIdr,
        lastSent := if i.packets > 0 then i.now else s.lastSent,
        frameNumber := if i.packets > 0 then s.frameNumber + 1 else s.frameNumber),
     Encodes(frame, resend, idr, s.frameNumber))
  }

  function Step(before: State, i: Input, mjpeg: bool): (State, Action)
  {
    var s := Seen(before, i);
    if !i.captured && !Resends(s, i) then (s, Waits)
    else
      var frame := if i.captured then s.captures else s.lastFrame;
      if s.lastSent != 0 && i.now - s.lastSent < s.minInterval then
        (s.(lastFrame := frame, unsent := true), Holds(frame))
      else Encoded(s, i, frame, !i.captured && !s.unsent, mjpeg)
  }

  predicate Sends(a: Action, i: Input)
  {
    a.Encodes? && i.packets > 0
  }

  // ----- runs -----

  datatype Run = Run(states: seq<State>, actions: seq<Action>)

  /** `states[k]` is the state before iteration `k`. */
  ghost predicate IsRun(r: Run, inputs: seq<Input>, mjpeg: bool)
  {
    && |r.states| == |inputs| + 1 && |r.actions| == |inputs|
    && (forall k | 0 <= k < |inputs| :: (r.states[k + 1], r.actions[k]) == Step(r.states[k], inputs[k], mjpeg))
    && (forall k | 0 <= k < |inputs| :: inputs[k].now > 0 && inputs[k].minInterval > 0)
    && (forall j, k | 0 <= j <= k < |inputs| :: inputs[j].now <= inputs[k].now)
  }

  ghost predicate Started(s: State)
  {
    s.captures == s.lastFrame == 0 && !s.unsent && s.refineLeft == 0 && s.lastIdr == s.lastSent == 0
  }

  /** Whether frame `f` was handed to the encoder before iteration `k`. */
  ghost predicate Handed(r: Run, k: nat, f: nat)
    requires k <= |r.actions|
  {
    exists j | 0 <= j < k :: r.actions[j].Encodes? && r.actions[j].frame == f
  }

  /** The newest captured frame is the one kept; unless it was handed to the encoder it is marked unsent. */
  ghost predicate NewestKept(r: Run, k: nat)
    requires k <= |r.actions| && k < |r.states|
  {
    var s := r.states[k];
    s.lastFrame == s.captures && (if s.unsent then s.captures > 0 else s.captures == 0 || Handed(r, k, s.captures))
  }

  lemma {:induction false} NewestIsNeverLost(r: Run, inputs: seq<Input>, mjpeg: bool, k: nat)
    requires IsRun(r, inputs, mjpeg) && Started(r.states[0]) && k <= |inputs|
    ensures NewestKept(r, k)
  {
    if k > 0 {
      NewestIsNeverLost(r, inputs, mjpeg, k - 1);
      var s, i := r.states[k - 1], inputs[k - 1];
      assert (r.states[k], r.actions[k - 1]) == Step(s, i, mjpeg);
      if Handed(r, k - 1, s.captures) { assert Handed(r, k, s.captures); }
      if r.actions[k - 1].Encodes? { assert Handed(r, k, r.actions[k - 1].frame); }
    }
  }

  /** The last send and the last requested IDR before iteration `k` are where the state says. */
  ghost predicate ClocksOk(r: Run, inputs: seq<Input>, k: nat)
    requires |r.states| == |inputs| + 1 && |r.actions| == |inputs| && k <= |inputs|
  {
    var s := r.states[k];
    && (forall j | 0 <= j < k && Sends(r.actions[j], inputs[j]) :: 0 < inputs[j].now <= s.lastSent)
    && (forall j | 0 <= j < k && r.actions[j].Encodes? && r.actions[j].idr :: inputs[j].now <= s.lastIdr)
    && s.refineLeft <= REFINE_FRAMES
  }

  lemma {:induction false} ClocksAreRight(r: Run, inputs: seq<Input>, mjpeg: bool, k: nat)
    requires IsRun(r, inputs, mjpeg) && Started(r.states[0]) && k <= |inputs|
    ensures ClocksOk(r, inputs, k)
  {
    if k > 0 {
      ClocksAreRight(r, inputs, mjpeg, k - 1);
      assert (r.states[k], r.actions[k - 1]) == Step(r.states[k - 1], inputs[k - 1], mjpeg);
      assert forall j | 0 <= j < k :: inputs[j].now <= inputs[k - 1].now;
    }
  }

  /** Two sends are at least the interval in force at the later one apart. */
  lemma SendsArePaced(r: Run, inputs: seq<Input>, mjpeg: bool, j: nat, k: nat)
    requires IsRun(r, inputs, mjpeg) && Started(r.states[0]) && j < k < |inputs|
    requires Sends(r.actions[j], inputs[j]) && Sends(r.actions[k], inputs[k])
    ensures inputs[k].now - inputs[j].now >= inputs[k].minInterval
  {
    ClocksAreRight(r, inputs, mjpeg, k);
    assert (r.states[k + 1], r.actions[k]) == Step(r.states[k], inputs[k], mjpeg);
  }

  /** Two IDRs the host asked the encoder for are at least 200 ms apart. */
  lemma IdrsAreApart(r: Run, inputs: seq<Input>, mjpeg: bool, j: nat, k: nat)
    requires IsRun(r, inputs, mjpeg) && Started(r.states[0]) && j < k < |inputs|
    requires r.actions[j].Encodes? && r.actions[j].idr && r.actions[k].Encodes? && r.actions[k].idr
    ensures inputs[k].now - inputs[j].now >= 200_000
  {
    ClocksAreRight(r, inputs, mjpeg, k);
    assert (r.states[k + 1], r.actions[k]) == Step(r.states[k], inputs[k], mjpeg);
  }

  ghost function SendsUpTo(r: Run, inputs: seq<Input>, k: nat): nat
    requires |r.actions| == |inputs| && k <= |inputs|
  {
    if k == 0 then 0 else SendsUpTo(r, inputs, k - 1) + if Sends(r.actions[k - 1], inputs[k - 1]) then 1 else 0
  }

  /** Only frames that are sent are numbered, and they are numbered one after the other. */
  lemma {:induction false} NumbersAreConsecutive(r: Run, inputs: seq<Input>, mjpeg: bool, k: nat)
    requires IsRun(r, inputs, mjpeg) && k <= |inputs|
    ensures r.states[k].frameNumber == r.states[0].frameNumber + SendsUpTo(r, inputs, k)
    ensures k < |inputs| && r.actions[k].Encodes? ==>
      r.actions[k].number == r.states[0].frameNumber + SendsUpTo(r, inputs, k)
    decreases k
  {
    if k > 0 { NumbersAreConsecutive(r, inputs, mjpeg, k - 1); }
    if k < |inputs| { assert (r.states[k + 1], r.actions[k]) == Step(r.states[k], inputs[k], mjpeg); }
  }

  /** Whether a turn may encode at all: there is a frame, and the interval is over. */
  predicate MayEncode(s: State, i: Input)
  {
    (i.captured || (i.capturing && s.lastFrame != 0)) && (s.lastSent == 0 || i.now - s.lastSent >= i.minInterval)
  }

  /** A frame held back goes to the encoder, it or a newer one, at the first turn that may encode. */
  lemma {:induction false} HeldFrameGoesOut(r: Run, inputs: seq<Input>, mjpeg: bool, j: nat, k: nat)
    requires IsRun(r, inputs, mjpeg) && Started(r.states[0]) && j <= k < |inputs| && r.states[j].unsent
    requires forall m | j <= m < k :: !MayEncode(r.states[m], inputs[m])
    ensures forall m | j <= m < k :: !r.actions[m].Encodes?
    ensures r.states[k].unsent
    ensures MayEncode(r.states[k], inputs[k]) ==>
      r.actions[k].Encodes? && r.actions[k].frame == r.states[k + 1].captures && !r.states[k + 1].unsent
    decreases k
  {
    NewestIsNeverLost(r, inputs, mjpeg, k);
    assert (r.states[k + 1], r.actions[k]) == Step(r.states[k], inputs[k], mjpeg);
    if k > j {
      HeldFrameGoesOut(r, inputs, mjpeg, j, k - 1);
      assert (r.states[k], r.actions[k - 1]) == Step(r.states[k - 1], inputs[k - 1], mjpeg);
      assert !MayEncode(r.states[k - 1], inputs[k - 1]);
    }
    LastSentPositive(r, inputs, mjpeg, k);
  }

  lemma {:induction false} LastSentPositive(r: Run, inputs: seq<Input>, mjpeg: bool, k: nat)
    requires IsRun(r, inputs, mjpeg) && Started(r.states[0]) && k <= |inputs|
    ensures r.states[k].lastSent >= 0 && (r.states[k].unsent ==> r.states[k].lastSent > 0)
  {
    if k > 0 {
      LastSentPositive(r, inputs, mjpeg, k - 1);
      assert (r.states[k], r.actions[k - 1]) == Step(r.states[k - 1], inputs[k - 1], mjpeg);
    }
  }

  /** A request stays until the first turn that may encode 200 ms or more after the last IDR, and is served there. */
  lemma {:induction false} RequestIsServed(r: Run, inputs: seq<Input>, mjpeg: bool, j: nat, k: nat)
    requires IsRun(r, inputs, mjpeg) && j <= k < |inputs| && (r.states[j].force || inputs[j].requested)
    requires forall m | j <= m < k ::
      !(MayEncode(r.states[m], inputs[m]) && inputs[m].now - r.states[m].lastIdr >= IDR_GAP)
    ensures r.states[k].force || inputs[k].requested
    ensures MayEncode(r.states[k], inputs[k]) && inputs[k].now - r.states[k].lastIdr >= IDR_GAP ==>
      r.actions[k].Encodes? && r.actions[k].idr && !r.states[k + 1].force
    decreases k
  {
    assert (r.states[k + 1], r.actions[k]) == Step(r.states[k], inputs[k], mjpeg);
    if k > j {
      RequestIsServed(r, inputs, mjpeg, j, k - 1);
      assert (r.states[k], r.actions[k - 1]) == Step(r.states[k - 1], inputs[k - 1], mjpeg);
      assert !(MayEncode(r.states[k - 1], inputs[k - 1]) && inputs[k - 1].now - r.states[k - 1].lastIdr >= IDR_GAP);
    }
  }

  // ----- a still screen -----

  /** No capture, no keyframe asked for, none in what the encoder gives. */
  predicate Still(i: Input)
  {
    !i.captured && i.capturing && !i.requested && !(i.key && i.packets > 0) && i.minInterval <= 1_000_000
  }

  /** An encode less than a second after the last send: a refinement. */
  predicate Early(s: State, i: Input, a: Action)
  {
    a.Encodes? && i.now - s.lastSent < KEEPALIVE
  }

  ghost function EarlyUpTo(r: Run, inputs: seq<Input>, from: nat, k: nat): nat
    requires |r.states| == |inputs| + 1 && |r.actions| == |inputs| && from <= k <= |inputs|
  {
    if k == from then 0
    else EarlyUpTo(r, inputs, from, k - 1) + if Early(r.states[k - 1], inputs[k - 1], r.actions[k - 1]) then 1 else 0
  }

  /** On a still screen at most `refineLeft` refinements follow, and an encode comes a second after the last send. */
  lemma {:induction false} StillScreenSettles(r: Run, inputs: seq<Input>, mjpeg: bool, from: nat, k: nat)
    requires IsRun(r, inputs, mjpeg) && from <= k <= |inputs|
    requires var s := r.states[from]; s.lastFrame != 0 && !s.unsent && !s.force && s.lastSent != 0
    requires forall j | from <= j < k :: Still(inputs[j])
    ensures var s := r.states[k]; s.lastFrame != 0 && !s.unsent && !s.force && s.lastSent != 0
    ensures EarlyUpTo(r, inputs, from, k) + r.states[k].refineLeft <= r.states[from].refineLeft
    ensures forall j | from <= j < k ::
      r.actions[j].Encodes? <==>
        && inputs[j].now - r.states[j].lastSent >= inputs[j].minInterval
        && (r.states[j].refineLeft > 0 || inputs[j].now - r.states[j].lastSent >= KEEPALIVE)
    ensures forall j | from <= j < k && r.actions[j].Encodes? :: r.actions[j].frame == r.states[from].lastFrame
    ensures r.states[k].lastFrame == r.states[from].lastFrame
    decreases k
  {
    if k > from {
      StillScreenSettles(r, inputs, mjpeg, from, k - 1);
      assert (r.states[k], r.actions[k - 1]) == Step(r.states[k - 1], inputs[k - 1], mjpeg);
      assert Still(inputs[k - 1]);
    }
  }

  /** At most 30 refinements follow the last change, whatever came before it. */
  lemma {:induction false} AtMostThirtyRefinements(r: Run, inputs: seq<Input>, mjpeg: bool, from: nat)
    requires IsRun(r, inputs, mjpeg) && Started(r.states[0]) && from <= |inputs|
    requires var s := r.states[from]; s.lastFrame != 0 && !s.unsent && !s.force && s.lastSent != 0
    requires forall j | from <= j < |inputs| :: Still(inputs[j])
    ensures EarlyUpTo(r, inputs, from, |inputs|) <= 30
    ensures forall j | from <= j < |inputs| && inputs[j].now - r.states[j].lastSent >= 1_000_000 ::
      r.actions[j].Encodes?
    ensures forall j | from <= j < |inputs| && r.states[j].refineLeft == 0 ::
      r.actions[j].Encodes? <==> inputs[j].now - r.states[j].lastSent >= 1_000_000
  {
    ClocksAreRight(r, inputs, mjpeg, from);
    StillScreenSettles(r, inputs, mjpeg, from, |inputs|);
  }

  // ----- how many refinements, exactly -----

  /** Turn `j` encodes a frame as new, or the encoder gives a keyframe. */
  ghost predicate Fresh(r: Run, inputs: seq<Input>, j: nat)
    requires |r.actions| == |inputs| && j < |inputs|
  {
    r.actions[j].Encodes? && (!r.actions[j].resend || (inputs[j].key && inputs[j].packets > 0))
  }

  ghost function EncodesUpTo(r: Run, from: nat, k: nat): nat
    requires from <= k <= |r.actions|
  {
    if k == from then 0 else EncodesUpTo(r, from, k - 1) + if r.actions[k - 1].Encodes? then 1 else 0
  }

  /** Between fresh encodes each encode takes one from what is left, down to none; MJPEG has none from the first on. */
  lemma {:induction false} RefineLeftCountsDown(r: Run, inputs: seq<Input>, mjpeg: bool, from: nat, k: nat)
    requires IsRun(r, inputs, mjpeg) && from <= k <= |inputs|
    requires forall j | from <= j < k :: !Fresh(r, inputs, j)
    ensures var before, n := r.states[from].refineLeft, EncodesUpTo(r, from, k);
      r.states[k].refineLeft == if n == 0 then before else if mjpeg || n >= before then 0 else before - n
    decreases k
  {
    if k > from {
      RefineLeftCountsDown(r, inputs, mjpeg, from, k - 1);
      assert (r.states[k], r.actions[k - 1]) == Step(r.states[k - 1], inputs[k - 1], mjpeg);
      assert !Fresh(r, inputs, k - 1);
    }
  }

  /** After a fresh encode of an inter codec 30 refinements are left, less the encodes since. */
  lemma RefineLeftIs(r: Run, inputs: seq<Input>, mjpeg: bool, j: nat, k: nat)
    requires IsRun(r, inputs, mjpeg) && j < k <= |inputs| && Fresh(r, inputs, j)
    requires forall m | j < m < k :: !Fresh(r, inputs, m)
    ensures var n := EncodesUpTo(r, j + 1, k);
      r.states[k].refineLeft == if mjpeg || n >= 30 then 0 else 30 - n
  {
    assert (r.states[j + 1], r.actions[j]) == Step(r.states[j], inputs[j], mjpeg);
    RefineLeftCountsDown(r, inputs, mjpeg, j + 1, k);
  }

  /** On a still screen every encode is a re-send, and takes one from what is left. */
  lemma StillScreenCountsDown(r: Run, inputs: seq<Input>, from: nat, k: nat)
    requires IsRun(r, inputs, false) && from <= k <= |inputs|
    requires var s := r.states[from]; s.lastFrame != 0 && !s.unsent && !s.force && s.lastSent != 0
    requires forall j | from <= j < k :: Still(inputs[j])
    ensures var before, n := r.states[from].refineLeft, EncodesUpTo(r, from, k);
      r.states[k].refineLeft == if n >= before then 0 else before - n
  {
    forall j | from <= j < k ensures !Fresh(r, inputs, j) {
      StillScreenSettles(r, inputs, false, from, j);
      assert (r.states[j + 1], r.actions[j]) == Step(r.states[j], inputs[j], false);
      assert Still(inputs[j]);
    }
    RefineLeftCountsDown(r, inputs, false, from, k);
  }

  // ----- what an encode is -----

  /** The frame of turn `k` was captured there, or was held since the last encode. */
  ghost predicate Held(r: Run, inputs: seq<Input>, k: nat)
    requires |r.actions| == |inputs| && k <= |inputs|
  {
    exists j | 0 <= j < k :: r.actions[j].Holds? && forall m | j < m < k :: !r.actions[m].Encodes?
  }

  lemma {:induction false} UnsentIffHeld(r: Run, inputs: seq<Input>, mjpeg: bool, k: nat)
    requires IsRun(r, inputs, mjpeg) && Started(r.states[0]) && k <= |inputs|
    ensures r.states[k].unsent <==> Held(r, inputs, k)
  {
    if k > 0 {
      UnsentIffHeld(r, inputs, mjpeg, k - 1);
      assert (r.states[k], r.actions[k - 1]) == Step(r.states[k - 1], inputs[k - 1], mjpeg);
      if Held(r, inputs, k - 1) && !r.actions[k - 1].Encodes? {
        var j :| 0 <= j < k - 1 && r.actions[j].Holds? && forall m | j < m < k - 1 :: !r.actions[m].Encodes?;
        assert forall m | j < m < k :: !r.actions[m].Encodes?;
      }
      if Held(r, inputs, k) && !r.actions[k - 1].Holds? {
        var j :| 0 <= j < k && r.actions[j].Holds? && forall m | j < m < k :: !r.actions[m].Encodes?;
        assert !r.actions[k - 1].Encodes?;
      }
    }
  }

  /** An encode is of the newest frame, and a re-send unless that was captured at this turn or held since the last. */
  lemma EncodesNewest(r: Run, inputs: seq<Input>, mjpeg: bool, k: nat)
    requires IsRun(r, inputs, mjpeg) && Started(r.states[0]) && k < |inputs| && r.actions[k].Encodes?
    ensures r.actions[k].frame == r.states[k + 1].captures > 0
    ensures r.actions[k].resend <==> !inputs[k].captured && !Held(r, inputs, k)
  {
    NewestIsNeverLost(r, inputs, mjpeg, k);
    UnsentIffHeld(r, inputs, mjpeg, k);
    assert (r.states[k + 1], r.actions[k]) == Step(r.states[k], inputs[k], mjpeg);
  }

  /** Turn `j` asks the encoder for an IDR. */
  ghost predicate Asks(r: Run, j: nat)
    requires j < |r.actions|
  {
    r.actions[j].Encodes? && r.actions[j].idr
  }

  /** A keyframe was asked for at turn `j` or, for `j` = -1, before the start, and no IDR since before turn `k`. */
  ghost predicate AskedAt(r: Run, inputs: seq<Input>, j: int, k: nat)
    requires |r.states| == |inputs| + 1 && |r.actions| == |inputs| && k < |inputs|
  {
    && -1 <= j <= k && (if j == -1 then r.states[0].force else inputs[j].requested)
    && forall m | 0 <= m < k && j <= m :: !Asks(r, m)
  }

  lemma {:induction false} ForceIffAsked(r: Run, inputs: seq<Input>, mjpeg: bool, k: nat)
    requires IsRun(r, inputs, mjpeg) && k < |inputs|
    ensures r.states[k].force || inputs[k].requested <==> exists j :: AskedAt(r, inputs, j, k)
  {
    if k == 0 {
      if r.states[0].force { assert AskedAt(r, inputs, -1, 0); }
      if inputs[0].requested { assert AskedAt(r, inputs, 0, 0); }
    } else {
      ForceIffAsked(r, inputs, mjpeg, k - 1);
      assert (r.states[k], r.actions[k - 1]) == Step(r.states[k - 1], inputs[k - 1], mjpeg);
      if inputs[k].requested { assert AskedAt(r, inputs, k, k); }
      if r.states[k].force {
        var j :| AskedAt(r, inputs, j, k - 1);
        assert AskedAt(r, inputs, j, k);
      }
      if j :| AskedAt(r, inputs, j, k) && j < k {
        assert !Asks(r, k - 1);
        assert AskedAt(r, inputs, j, k - 1);
      }
    }
  }

  /** When the last IDR was asked for; 0 before the first. */
  ghost function LastAsked(r: Run, inputs: seq<Input>, k: nat): int
    requires |r.actions| == |inputs| && k <= |inputs|
  {
    if k == 0 then 0 else if Asks(r, k - 1) then inputs[k - 1].now else LastAsked(r, inputs, k - 1)
  }

  lemma {:induction false} LastIdrIs(r: Run, inputs: seq<Input>, mjpeg: bool, k: nat)
    requires IsRun(r, inputs, mjpeg) && Started(r.states[0]) && k <= |inputs|
    ensures r.states[k].lastIdr == LastAsked(r, inputs, k)
  {
    if k > 0 {
      LastIdrIs(r, inputs, mjpeg, k - 1);
      assert (r.states[k], r.actions[k - 1]) == Step(r.states[k - 1], inputs[k - 1], mjpeg);
    }
  }

  /** An encode asks for an IDR exactly when a request is open and the last one is 200 ms old. */
  lemma IdrIffAsked(r: Run, inputs: seq<Input>, mjpeg: bool, k: nat)
    requires IsRun(r, inputs, mjpeg) && Started(r.states[0]) && k < |inputs| && r.actions[k].Encodes?
    ensures r.actions[k].idr <==>
      (exists j :: AskedAt(r, inputs, j, k)) && inputs[k].now - LastAsked(r, inputs, k) >= 200_000
  {
    ForceIffAsked(r, inputs, mjpeg, k);
    LastIdrIs(r, inputs, mjpeg, k);
    assert (r.states[k + 1], r.actions[k]) == Step(r.states[k], inputs[k], mjpeg);
  }

  // ----- a still screen with keyframe requests -----

  /** No capture, no keyframe in what the encoder gives; keyframes may be asked for. */
  predicate Idle(i: Input)
  {
    !i.captured && i.capturing && !(i.key && i.packets > 0) && i.minInterval <= 1_000_000
  }

  /** A keyframe is due before the frame interval is over. */
  predicate TooEarly(s: State, i: Input)
  {
    (s.force || i.requested) && i.now - s.lastIdr >= IDR_GAP && i.now - s.lastSent < i.minInterval
  }

  ghost function IdrsUpTo(r: Run, from: nat, k: nat): nat
    requires from <= k <= |r.actions|
  {
    if k == from then 0
    else IdrsUpTo(r, from, k - 1) + if r.actions[k - 1].Encodes? && r.actions[k - 1].idr then 1 else 0
  }

  /** Encodes of the kept frame as if it were new. */
  ghost function RestartsUpTo(r: Run, from: nat, k: nat): nat
    requires from <= k <= |r.actions|
  {
    if k == from then 0
    else RestartsUpTo(r, from, k - 1) + if r.actions[k - 1].Encodes? && !r.actions[k - 1].resend then 1 else 0
  }

  /** The frame in the encoder stays kept, and its next encodes are re-sends. */
  predicate Settled(s: State)
  {
    s.lastFrame != 0 && !s.unsent && s.lastSent != 0
  }

  ghost predicate IdleRun(r: Run, inputs: seq<Input>, mjpeg: bool, from: nat, k: nat)
  {
    && IsRun(r, inputs, mjpeg) && from <= k <= |inputs| && Settled(r.states[from])
    && forall j | from <= j < k :: Idle(inputs[j])
  }

  /** Whatever is asked for: a refinement is one of those left, serves a request, or follows a restart. */
  lemma {:induction false} RefinementsAreAccounted(r: Run, inputs: seq<Input>, mjpeg: bool, from: nat, k: nat)
    requires IdleRun(r, inputs, mjpeg, from, k)
    ensures r.states[k].lastFrame == r.states[from].lastFrame && r.states[k].lastSent != 0
    ensures EarlyUpTo(r, inputs, from, k) + r.states[k].refineLeft
         <= r.states[from].refineLeft + IdrsUpTo(r, from, k) + (REFINE_FRAMES + 1) * RestartsUpTo(r, from, k)
    decreases k
  {
    if k > from {
      RefinementsAreAccounted(r, inputs, mjpeg, from, k - 1);
      assert (r.states[k], r.actions[k - 1]) == Step(r.states[k - 1], inputs[k - 1], mjpeg);
      assert Idle(inputs[k - 1]);
    }
  }

  ghost predicate NoneTooEarly(r: Run, inputs: seq<Input>, from: nat, k: nat)
    requires |r.states| == |inputs| + 1 && k <= |inputs|
  {
    forall j | from <= j < k :: !TooEarly(r.states[j], inputs[j])
  }

  ghost predicate NeverUnsent(r: Run, from: nat, k: nat)
    requires k < |r.states|
  {
    forall j | from <= j <= k :: !r.states[j].unsent
  }

  /** On an idle screen the kept frame is marked unsent again exactly when a keyframe is due too early. */
  lemma {:induction false} MarkedUnsentIffTooEarly(r: Run, inputs: seq<Input>, mjpeg: bool, from: nat, k: nat)
    requires IdleRun(r, inputs, mjpeg, from, k)
    ensures NeverUnsent(r, from, k) <==> NoneTooEarly(r, inputs, from, k)
    ensures NeverUnsent(r, from, k) ==>
      r.states[k].refineLeft <= r.states[from].refineLeft && RestartsUpTo(r, from, k) == 0
    decreases k
  {
    if k > from {
      MarkedUnsentIffTooEarly(r, inputs, mjpeg, from, k - 1);
      RefinementsAreAccounted(r, inputs, mjpeg, from, k - 1);
      assert (r.states[k], r.actions[k - 1]) == Step(r.states[k - 1], inputs[k - 1], mjpeg);
      assert Idle(inputs[k - 1]);
      assert NeverUnsent(r, from, k) <==> NeverUnsent(r, from, k - 1) && !r.states[k].unsent;
      assert NoneTooEarly(r, inputs, from, k) <==>
             NoneTooEarly(r, inputs, from, k - 1) && !TooEarly(r.states[k - 1], inputs[k - 1]);
    }
  }

  /** So without one, no more than the refinements left follow, and one encode for each request served. */
  lemma RefinementsWithRequests(r: Run, inputs: seq<Input>, mjpeg: bool, from: nat)
    requires IdleRun(r, inputs, mjpeg, from, |inputs|) && Started(r.states[0])
    requires NoneTooEarly(r, inputs, from, |inputs|)
    ensures EarlyUpTo(r, inputs, from, |inputs|) <= REFINE_FRAMES + IdrsUpTo(r, from, |inputs|)
  {
    ClocksAreRight(r, inputs, mjpeg, from);
    MarkedUnsentIffTooEarly(r, inputs, mjpeg, from, |inputs|);
    RefinementsAreAccounted(r, inputs, mjpeg, from, |inputs|);
  }

  /** A keyframe request met before the interval is over marks the kept frame unsent: it is refined anew. */
  lemma RequestRestartsRefinement(s: State, i: Input, later: Input)
    requires s.lastFrame != 0 && s.lastSent != 0 && !s.unsent && !i.captured && i.capturing && i.minInterval > 0
    requires s.force && i.now - s.lastIdr >= IDR_GAP && i.now - s.lastSent < i.minInterval
    requires !later.captured && later.capturing && later.now - s.lastSent >= later.minInterval
    ensures Step(s, i, false).1 == Holds(s.lastFrame)
    ensures var r := Step(Step(s, i, false).0, later, false);
      r.1.Encodes? && !r.1.resend && r.0.refineLeft == REFINE_FRAMES
  {
  }

  // ----- the loop -----

  class Worker {
    const isMjpeg: bool
    var lastFrame: nat
    var lastFrameUnsent: bool
    var refineLeft: nat
    var lastIdr: int
    var lastSent: int
    var forceKeyframe: bool
    var minInterval: int
    var frameNumber: nat
    ghost var captures: nat

    ghost function View(): State
      reads this
    {
      State(captures, lastFrame, lastFrameUnsent, refineLeft, lastIdr, lastSent, forceKeyframe, minInterval,
          frameNumber)
    }

    constructor (isMjpeg: bool, firstFrame: nat, minInterval: int)
      ensures this.isMjpeg == isMjpeg && Started(View()) && forceKeyframe && frameNumber == firstFrame
    {
      this.isMjpeg, this.minInterval := isMjpeg, minInterval;
      lastFrame, lastFrameUnsent, refineLeft, lastIdr, lastSent := 0, false, 0, 0, 0;
      forceKeyframe, frameNumber, captures := true, firstFrame, 0;
    }

    /** One turn of the loop; `captured` is the number of the frame the capture delivered, or 0. */
    method Iterate(captured: nat, i: Input) returns (a: Action)
      requires captured == if i.captured then captures + 1 else 0
      modifies this
      ensures (View(), a) == Step(old(View()), i, isMjpeg)
    {
      if i.captured { captures := captured; }
      if i.requested { forceKeyframe := true; }
      minInterval := i.minInterval;
      var frame, resend := captured, false;
      if frame == 0 && i.capturing && lastFrame != 0 {
        var due := i.now - lastSent >= minInterval;
        if ((lastFrameUnsent || refineLeft > 0) && due) || (forceKeyframe && i.now - lastIdr >= IDR_GAP)
           || i.now - lastSent >= KEEPALIVE {
          resend := !lastFrameUnsent;
          frame := lastFrame;
        }
      }
      if frame == 0 { return Waits; }
      if lastSent != 0 && i.now - lastSent < minInterval {
        lastFrame := frame;
        lastFrameUnsent := true;
        return Holds(frame);
      }
      a := EncodeFrame(frame, resend, i);
    }

    /** The loop body's second half: ask for an IDR if one is due, encode, send what came out. */
    method EncodeFrame(frame: nat, resend: bool, i: Input) returns (a: Action)
      modifies `lastFrame, `lastFrameUnsent, `refineLeft, `lastIdr, `lastSent, `forceKeyframe, `frameNumber
      ensures (View(), a) == Encoded(old(View()), i, frame, resend, isMjpeg)
    {
      var idr := false;
      if forceKeyframe && i.now - lastIdr >= IDR_GAP {
        forceKeyframe := false;
        idr := true;
        lastIdr := i.now;
      }
      var key := i.key && i.packets > 0;
      if isMjpeg { refineLeft := 0; }
      else if !resend || key { refineLeft := REFINE_FRAMES; }
      else if refineLeft > 0 { refineLeft := refineLeft - 1; }
      a := Encodes(frame, resend, idr, frameNumber);
      if i.packets > 0 {
        frameNumber := frameNumber + 1;
        lastSent := i.now;
      }
      lastFrame := frame;
      lastFrameUnsent := false;
    }
  }
}
