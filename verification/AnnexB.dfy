/** H.264/HEVC access units: splitting at start codes, and parameter sets for every keyframe. */
module AnnexB {
  import opened Bits

  datatype Codec = H264 | Hevc

  predicate StartCodeAt(d: seq<byte>, i: nat)
  {
    i + 3 <= |d| && d[i] == 0 && d[i + 1] == 0 && d[i + 2] == 1
  }

  predicate EndsInZero(nal: seq<byte>)
  {
    nal != [] && nal[|nal| - 1] == 0
  }

  function TrimZero(nal: seq<byte>): seq<byte>
  {
    if EndsInZero(nal) then nal[..|nal| - 1] else nal
  }

  /** The NAL units from position `i` on; one starts at `start` already, if any. */
  function SplitFrom(d: seq<byte>, i: nat, start: Option<nat>): seq<seq<byte>>
    requires i <= |d| && (start.Some? ==> start.value <= i)
    decreases |d| - i
  {
    if i + 3 <= |d| then
      if StartCodeAt(d, i) then
        (if start.Some? then [TrimZero(d[start.value..i])] else []) + SplitFrom(d, i + 3, Some(i + 3))
      else SplitFrom(d, i + 1, start)
    else if start.Some? && start.value < |d| then [d[start.value..]]
    else []
  }

  function Split(d: seq<byte>): seq<seq<byte>>
  {
    SplitFrom(d, 0, None)
  }

  lemma Pushed(nals: seq<seq<byte>>, nal: seq<byte>, rest: seq<seq<byte>>)
    ensures nals + ([nal] + rest) == nals + [nal] + rest
  {
  }

  method SplitAnnexB(d: seq<byte>) returns (nals: seq<seq<byte>>)
    ensures nals == Split(d)
  {
    nals := [];
    var i, start: Option<nat> := 0, None;
    while i + 3 <= |d|
      invariant i <= |d| && (start.Some? ==> start.value <= i)
      invariant nals + SplitFrom(d, i, start) == Split(d)
    {
      if d[i] == 0 && d[i + 1] == 0 && d[i + 2] == 1 {
        if start.Some? {
          var end := i;
          if end > start.value && d[end - 1] == 0 { end := end - 1; }
          assert d[start.value..end] == TrimZero(d[start.value..i]);
          Pushed(nals, d[start.value..end], SplitFrom(d, i + 3, Some(i + 3)));
          nals := nals + [d[start.value..end]];
        }
        i := i + 3;
        start := Some(i);
      } else {
        i := i + 1;
      }
    }
    if start.Some? && start.value < |d| {
      nals := nals + [d[start.value..]];
    }
  }

  // ----- splitting undoes joining -----

  /** A NAL unit behind a 4-byte (`long`) or a 3-byte start code. */
  datatype Unit = Unit(long: bool, nal: seq<byte>)
  {
    function Code(): seq<byte> {
      if long then [0, 0, 0, 1] else [0, 0, 1]
    }

    ghost predicate Ok() {
      nal != [] && forall k: nat :: !StartCodeAt(nal, k)
    }
  }

  function Joined(us: seq<Unit>): seq<byte>
  {
    if us == [] then [] else us[0].Code() + us[0].nal + Joined(us[1..])
  }

  function Nals(us: seq<Unit>): (ns: seq<seq<byte>>)
    ensures |ns| == |us| && forall k | 0 <= k < |us| :: ns[k] == us[k].nal
  {
    if us == [] then [] else [us[0].nal] + Nals(us[1..])
  }

  ghost predicate AllOk(us: seq<Unit>)
  {
    forall u | u in us :: u.Ok()
  }

  /** A zero at the end of a NAL unit is taken for the first byte of the start code when a 3-byte one follows. */
  function Cut(nal: seq<byte>, next: seq<Unit>): seq<byte>
  {
    if next == [] || next[0].long then nal else TrimZero(nal)
  }

  function CutAll(us: seq<Unit>): (ns: seq<seq<byte>>)
    ensures |ns| == |us| && forall k | 0 <= k < |us| :: ns[k] == Cut(us[k].nal, us[k + 1..])
  {
    if us == [] then [] else [Cut(us[0].nal, us[1..])] + CutAll(us[1..])
  }

  /** No start code before `end`: the scan gets there without finding a NAL unit. */
  lemma {:induction false} Scans(d: seq<byte>, i: nat, end: nat, start: Option<nat>)
    requires i <= end <= |d| && (start.Some? ==> start.value <= i)
    requires forall k | i <= k < end :: !StartCodeAt(d, k)
    ensures SplitFrom(d, i, start) == SplitFrom(d, end, start)
    decreases end - i
  {
    if i < end { Scans(d, i + 1, end, start); }
  }

  /** The NAL unit before position `p`, where `us` begin. */
  ghost function Before(d: seq<byte>, p: nat, start: Option<nat>, us: seq<Unit>): seq<seq<byte>>
    requires p <= |d| && (start.Some? ==> start.value < p)
  {
    if start.Some? then [Cut(d[start.value..p], us)] else []
  }

  /** A unit's start code closes the NAL unit before it. */
  lemma MeetsCode(d: seq<byte>, p: nat, start: Option<nat>, us: seq<Unit>)
    requires us != [] && p <= |d| && (start.Some? ==> start.value < p)
    requires var q := if us[0].long then p + 1 else p;
      StartCodeAt(d, q) && (us[0].long ==> !StartCodeAt(d, p) && d[p] == 0)
    ensures var from := (if us[0].long then p + 1 else p) + 3;
      SplitFrom(d, p, start) == Before(d, p, start, us) + SplitFrom(d, from, Some(from))
  {
    var q := if us[0].long then p + 1 else p;
    if us[0].long { Scans(d, p, q, start); }
    assert start.Some? ==> TrimZero(d[start.value..q]) == Cut(d[start.value..p], us);
  }

  lemma Parts(d: seq<byte>, p: nat, u: Unit, rest: seq<byte>)
    requires p <= |d| && d[p..] == u.Code() + u.nal + rest
    ensures var q := if u.long then p + 1 else p;
      && q + 3 + |u.nal| <= |d| && StartCodeAt(d, q) && (u.long ==> !StartCodeAt(d, p) && d[p] == 0)
      && d[q + 3..q + 3 + |u.nal|] == u.nal && d[q + 3 + |u.nal|..] == rest
  {
    var t, c := d[p..], |u.Code()|;
    assert forall k | 0 <= k < c :: d[p + k] == t[k] == u.Code()[k];
    assert t[c..c + |u.nal|] == u.nal && t[c + |u.nal|..] == rest;
  }

  /** What follows a NAL unit starts with two zeros or not at all, so no start code begins inside it. */
  lemma NoCodeInside(d: seq<byte>, from: nat, nal: seq<byte>, next: seq<Unit>)
    requires from + |nal| <= |d| && d[from..from + |nal|] == nal && d[from + |nal|..] == Joined(next)
    requires forall k: nat :: !StartCodeAt(nal, k)
    ensures forall k | from <= k < from + |nal| :: !StartCodeAt(d, k)
  {
    forall k | from <= k < from + |nal| ensures !StartCodeAt(d, k) {
      if k + 3 <= from + |nal| {
        assert !StartCodeAt(nal, k - from);
        assert forall j | 0 <= j < |nal| :: d[from + j] == nal[j];
      } else if next != [] {
        var t := d[from + |nal|..];
        assert t[0] == next[0].Code()[0] && t[1] == next[0].Code()[1];
        assert d[k + 2] == t[k + 2 - from - |nal|];
      }
    }
  }

  /** Where the first of the units `us` is. */
  lemma UnitAt(d: seq<byte>, p: nat, us: seq<Unit>) returns (from: nat, end: nat)
    requires us != [] && p <= |d| && d[p..] == Joined(us) && us[0].Ok()
    ensures from == (if us[0].long then p + 1 else p) + 3 && from < end <= |d|
    ensures d[from..end] == us[0].nal && d[end..] == Joined(us[1..])
    ensures StartCodeAt(d, from - 3) && (us[0].long ==> !StartCodeAt(d, p) && d[p] == 0)
    ensures forall k | from <= k < end :: !StartCodeAt(d, k)
  {
    var u := us[0];
    assert d[p..] == u.Code() + u.nal + Joined(us[1..]);
    hide Joined, Unit.Code, StartCodeAt;
    from := (if u.long then p + 1 else p) + 3;
    end := from + |u.nal|;
    Parts(d, p, u, Joined(us[1..]));
    NoCodeInside(d, from, u.nal, us[1..]);
  }

  lemma NextUnit(d: seq<byte>, p: nat, start: Option<nat>, us: seq<Unit>) returns (from: nat, end: nat)
    requires us != [] && p <= |d| && d[p..] == Joined(us) && us[0].Ok() && (start.Some? ==> start.value < p)
    ensures from < end <= |d| && d[from..end] == us[0].nal && d[end..] == Joined(us[1..])
    ensures SplitFrom(d, p, start) == Before(d, p, start, us) + SplitFrom(d, end, Some(from))
  {
    hide Joined, SplitFrom, StartCodeAt, Before;
    from, end := UnitAt(d, p, us);
    MeetsCode(d, p, start, us);
    Scans(d, from, end, Some(from));
  }

  lemma AtEnd(d: seq<byte>, start: Option<nat>)
    requires start.Some? ==> start.value < |d|
    ensures SplitFrom(d, |d|, start) == Before(d, |d|, start, []) + CutAll([])
  {
    assert start.Some? ==> d[start.value..|d|] == d[start.value..];
    assert Before(d, |d|, start, []) + [] == Before(d, |d|, start, []);
  }

  lemma {:induction false} SplitsJoined(d: seq<byte>, p: nat, start: Option<nat>, us: seq<Unit>)
    requires p <= |d| && d[p..] == Joined(us) && AllOk(us) && (start.Some? ==> start.value < p)
    ensures SplitFrom(d, p, start) == Before(d, p, start, us) + CutAll(us)
    decreases |us|
  {
    if us == [] {
      AtEnd(d, start);
    } else {
      assert us[0] in us && CutAll(us) == [Cut(us[0].nal, us[1..])] + CutAll(us[1..]);
      hide SplitFrom, StartCodeAt, Joined, Cut, CutAll;
      var from, end := NextUnit(d, p, start, us);
      SplitsJoined(d, end, Some(from), us[1..]);
      assert Before(d, end, Some(from), us[1..]) == [Cut(us[0].nal, us[1..])];
    }
  }

  /** Unit `k` keeps its last byte. */
  predicate Survives(us: seq<Unit>, k: nat)
    requires k < |us|
  {
    !EndsInZero(us[k].nal) || k == |us| - 1 || us[k + 1].long
  }

  lemma CutSurvives(us: seq<Unit>, k: nat)
    requires k < |us|
    ensures Cut(us[k].nal, us[k + 1..]) == us[k].nal <==> Survives(us, k)
  {
    assert us[k + 1..] != [] ==> us[k + 1..][0] == us[k + 1];
  }

  /** The NAL units come back exactly when none ends in a zero with a 3-byte start code behind it. */
  lemma SplitJoined(us: seq<Unit>)
    requires AllOk(us)
    ensures Split(Joined(us)) == Nals(us) <==> forall k | 0 <= k < |us| :: Survives(us, k)
  {
    SplitsJoined(Joined(us), 0, None, us);
    assert Split(Joined(us)) == CutAll(us);
    hide Split, Survives, Cut;
    forall k | 0 <= k < |us| ensures CutAll(us)[k] == Nals(us)[k] <==> Survives(us, k) {
      CutSurvives(us, k);
    }
    hide CutAll, Nals;
    if forall k | 0 <= k < |us| :: Survives(us, k) {
      assert CutAll(us) == Nals(us);
    }
  }
}
