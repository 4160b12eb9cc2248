/** The encoder's safety net: every H.264/HEVC keyframe leaves with parameter sets. */
module ParameterSets {
  import opened Bits
  import opened AnnexB

  predicate IsParameterSet(codec: Codec, nal: seq<byte>)
    requires nal != []
  {
    match codec
    case H264 => var t := nal[0] as nat % 32;
      t == 7 || t == 8
    case Hevc => var t := nal[0] as nat / 2 % 64;
      32 <= t <= 34
  }

  /** The parameter sets among NAL units. */
  function Sets(codec: Codec, nals: seq<seq<byte>>): (ps: seq<seq<byte>>)
    ensures forall p | p in ps :: p in nals && p != [] && IsParameterSet(codec, p)
  {
    if nals == [] then []
    else
      var front := Sets(codec, nals[..|nals| - 1]);
      var last := nals[|nals| - 1];
      if last != [] && IsParameterSet(codec, last) then front + [last] else front
  }

  function WithCodes(nals: seq<seq<byte>>): seq<byte>
  {
    if nals == [] then [] else WithCodes(nals[..|nals| - 1]) + ([0, 0, 0, 1] + nals[|nals| - 1])
  }

  /** The header kept after a keyframe, and the keyframe as it is sent. */
  function Ensured(codec: Codec, header: seq<byte>, au: seq<byte>): (seq<byte>, seq<byte>)
  {
    var sets := Sets(codec, Split(au));
    if sets != [] then (WithCodes(sets), au) else (header, header + au)
  }

  class Encoder {
    const codec: Codec
    var header: seq<byte>

    constructor (codec: Codec)
      ensures this.codec == codec && header == []
    {
      this.codec, header := codec, [];
    }

    method EnsureParameterSets(au: seq<byte>) returns (sent: seq<byte>)
      modifies this
      ensures (header, sent) == Ensured(codec, old(header), au)
    {
      var nals := SplitAnnexB(au);
      var params := [];
      for k := 0 to |nals|
        invariant params == WithCodes(Sets(codec, nals[..k]))
      {
        assert nals[..k + 1][..k] == nals[..k];
        var nal := nals[k];
        if nal != [] && IsParameterSet(codec, nal) {
          ghost var sets := Sets(codec, nals[..k]);
          assert (sets + [nal])[..|sets|] == sets;
          params := params + ([0, 0, 0, 1] + nal);
        }
      }
      assert nals[..|nals|] == nals;
      assert header + au == if header == [] then au else header + au;
      if params != [] {
        header, sent := params, au;
      } else if header != [] {
        sent := header + au;
      } else {
        sent := au;
      }
    }
  }

  // ----- what a decoder finds -----

  /** A NAL unit as H.264 Annex B allows it: not empty, no start code inside, no zero at its end. */
  ghost predicate NalOk(nal: seq<byte>)
  {
    nal != [] && !EndsInZero(nal) && forall k: nat :: !StartCodeAt(nal, k)
  }

  ghost predicate UnitsOk(us: seq<Unit>)
  {
    forall u | u in us :: NalOk(u.nal)
  }

  lemma SplitsOk(us: seq<Unit>)
    requires UnitsOk(us)
    ensures Split(Joined(us)) == Nals(us)
  {
    forall k | 0 <= k < |us| ensures Survives(us, k) { assert us[k] in us; }
    hide Split, StartCodeAt, EndsInZero;
    assert AllOk(us);
    SplitJoined(us);
  }

  /** The units `nals` make behind 4-byte start codes. */
  function Long(nals: seq<seq<byte>>): (us: seq<Unit>)
    ensures |us| == |nals| && forall k | 0 <= k < |us| :: us[k] == Unit(true, nals[k])
  {
    seq(|nals|, k requires 0 <= k < |nals| => Unit(true, nals[k]))
  }

  lemma {:induction false} JoinedAppend(us: seq<Unit>, more: seq<Unit>)
    ensures Joined(us + more) == Joined(us) + Joined(more)
  {
    if us == [] {
      assert us + more == more;
    } else {
      JoinedAppend(us[1..], more);
      assert (us + more)[1..] == us[1..] + more && (us + more)[0] == us[0];
      Regrouped(us[0].Code() + us[0].nal, Joined(us[1..]), Joined(more));
      hide Unit.Code;
    }
  }

  lemma {:induction false} WithCodesIsJoined(nals: seq<seq<byte>>)
    ensures WithCodes(nals) == Joined(Long(nals))
  {
    if nals != [] {
      var front, last := nals[..|nals| - 1], nals[|nals| - 1];
      WithCodesIsJoined(front);
      JoinedAppend(Long(front), [Unit(true, last)]);
      assert Long(nals) == Long(front) + [Unit(true, last)];
      assert Joined([Unit(true, last)]) == [0, 0, 0, 1] + last;
    }
  }

  lemma NalsAppend(us: seq<Unit>, more: seq<Unit>)
    ensures Nals(us + more) == Nals(us) + Nals(more)
  {
  }

  /** The kept sets in front of a keyframe's own NAL units are found with them. */
  lemma SplitsPrefixed(sets: seq<seq<byte>>, us: seq<Unit>)
    requires UnitsOk(us) && forall p | p in sets :: NalOk(p)
    ensures Split(WithCodes(sets) + Joined(us)) == sets + Nals(us)
  {
    var all := Long(sets) + us;
    WithCodesIsJoined(sets);
    JoinedAppend(Long(sets), us);
    NalsAppend(Long(sets), us);
    assert Nals(Long(sets)) == sets;
    forall u | u in all ensures NalOk(u.nal) {
      var k :| 0 <= k < |all| && all[k] == u;
      if k < |sets| { assert u.nal == sets[k]; }
    }
    hide NalOk, Split;
    SplitsOk(all);
  }

  // ----- runs -----

  ghost predicate KeyframesOk(aus: seq<seq<Unit>>)
  {
    forall au | au in aus :: UnitsOk(au)
  }

  /** The header after the keyframes `aus`, the first of which met none. */
  function HeaderAfter(codec: Codec, aus: seq<seq<Unit>>): seq<byte>
  {
    if aus == [] then []
    else Ensured(codec, HeaderAfter(codec, aus[..|aus| - 1]), Joined(aus[|aus| - 1])).0
  }

  /** The parameter sets of the last keyframe that had its own. */
  function LastSets(codec: Codec, aus: seq<seq<Unit>>): seq<seq<byte>>
  {
    if aus == [] then []
    else
      var own := Sets(codec, Nals(aus[|aus| - 1]));
      if own != [] then own else LastSets(codec, aus[..|aus| - 1])
  }

  lemma {:induction false} HeaderKeepsLastSets(codec: Codec, aus: seq<seq<Unit>>)
    requires KeyframesOk(aus)
    ensures HeaderAfter(codec, aus) == WithCodes(LastSets(codec, aus))
    ensures forall p | p in LastSets(codec, aus) :: NalOk(p) && IsParameterSet(codec, p)
    ensures LastSets(codec, aus) != [] <==> exists au :: au in aus && Sets(codec, Nals(au)) != []
  {
    if aus != [] {
      hide NalOk, IsParameterSet, Split, Joined, Sets, WithCodes;
      var front, last := aus[..|aus| - 1], aus[|aus| - 1];
      assert last in aus && forall au :: au in aus <==> au in front || au == last;
      HeaderKeepsLastSets(codec, front);
      SplitsOk(last);
      OwnOk(codec, last);
    }
  }

  lemma OwnOk(codec: Codec, us: seq<Unit>)
    requires UnitsOk(us)
    ensures forall p | p in Sets(codec, Nals(us)) :: NalOk(p) && IsParameterSet(codec, p)
  {
    forall p | p in Sets(codec, Nals(us)) ensures NalOk(p) {
      var k :| 0 <= k < |us| && Nals(us)[k] == p;
      assert us[k] in us;
    }
  }

  /**
   * Once a keyframe carried parameter sets, every later one is sent with parameter sets, its own NAL units behind
   * them in order; nothing else is in it.
   */
  lemma KeyframesCarrySets(codec: Codec, aus: seq<seq<Unit>>, us: seq<Unit>)
    requires KeyframesOk(aus) && UnitsOk(us)
    ensures var sent := Ensured(codec, HeaderAfter(codec, aus), Joined(us)).1;
      && Split(sent) == (if Sets(codec, Nals(us)) != [] then [] else LastSets(codec, aus)) + Nals(us)
      && ((exists au :: au in aus + [us] && Sets(codec, Nals(au)) != []) <==>
          exists p :: p in Split(sent) && p != [] && IsParameterSet(codec, p))
  {
    HeaderKeepsLastSets(codec, aus);
    SplitsOk(us);
    var own, kept := Sets(codec, Nals(us)), LastSets(codec, aus);
    SplitsPrefixed(kept, us);
    var sent := Ensured(codec, HeaderAfter(codec, aus), Joined(us)).1;
    var found := (if own != [] then [] else kept) + Nals(us);
    assert Split(sent) == found;
    HasSet(codec, Nals(us));
    hide NalOk, IsParameterSet, Split, Joined, WithCodes, Sets;
    if own != [] {
      assert us in aus + [us] && own[0] in found;
    } else if kept != [] {
      assert kept[0] in found;
      var au :| au in aus && Sets(codec, Nals(au)) != [];
      assert au in aus + [us];
    } else {
      assert found == Nals(us);
    }
  }

  lemma {:induction false} HasSet(codec: Codec, nals: seq<seq<byte>>)
    ensures Sets(codec, nals) == [] <==> forall p | p in nals && p != [] :: !IsParameterSet(codec, p)
  {
    if nals != [] {
      HasSet(codec, nals[..|nals| - 1]);
      assert nals == nals[..|nals| - 1] + [nals[|nals| - 1]];
      hide IsParameterSet;
    }
  }

  // ----- by NAL unit type -----

  /** nal_unit_type: 5 bits of the first byte in H.264 (section 7.3.1), 6 in HEVC (section 7.3.1.2). */
  function UnitType(codec: Codec, nal: seq<byte>): nat
    requires nal != []
  {
    match codec
    case H264 => FromHigh(HighBits(nal[0], 8)[3..])
    case Hevc => FromHigh(HighBits(nal[0], 8)[1..7])
  }

  /** The types of SPS and PPS; in HEVC of VPS, SPS and PPS. */
  function SetTypes(codec: Codec): set<nat>
  {
    match codec
    case H264 => {7, 8}
    case Hevc => {32, 33, 34}
  }

  lemma {:induction false} HighBitsValue(v: nat, n: nat)
    ensures FromHigh(HighBits(v, n)) == v % Pow2(n)
  {
    if n > 0 {
      HighBitsValue(v / 2, n - 1);
      assert HighBits(v, n)[..n - 1] == HighBits(v / 2, n - 1);
      HalfMod(v, Pow2(n - 1));
    }
  }

  lemma HalfMod(v: nat, p: nat)
    requires p > 0
    ensures 2 * (v / 2 % p) + v % 2 == v % (2 * p)
  {
    Quotient(v / 2, p);
    var q, r := v / 2 / p, v / 2 % p;
    assert v == q * (2 * p) + (2 * r + v % 2) by { assert q * (2 * p) == 2 * (q * p); }
    Unique(v, 2 * p, q, 2 * r + v % 2);
  }

  /** The last `n` of more bits are the bits of the same number. */
  lemma {:induction false} LastBits(v: nat, m: nat, n: nat)
    requires n <= m
    ensures HighBits(v, m)[m - n..] == HighBits(v, n)
  {
    if n > 0 { LastBits(v / 2, m - 1, n - 1); }
  }

  lemma TypeIs(codec: Codec, nal: seq<byte>)
    requires nal != []
    ensures UnitType(codec, nal) == match codec case H264 => nal[0] % 32 case Hevc => nal[0] / 2 % 64
  {
    var b: nat := nal[0];
    LastBits(b, 8, 5);
    HighBitsValue(b, 5);
    LastBits(b, 8, 7);
    assert HighBits(b, 8)[1..7] == HighBits(b, 7)[..6] == HighBits(b / 2, 6);
    HighBitsValue(b / 2, 6);
    assert Pow2(5) == 32 && Pow2(6) == 64;
  }

  lemma TypeDecides(codec: Codec, nal: seq<byte>)
    requires nal != []
    ensures IsParameterSet(codec, nal) <==> UnitType(codec, nal) in SetTypes(codec)
  {
    TypeIs(codec, nal);
  }

  /** Some NAL unit is of type `t`. */
  ghost predicate Carries(codec: Codec, nals: seq<seq<byte>>, t: nat)
  {
    exists p :: p in nals && p != [] && UnitType(codec, p) == t
  }

  ghost predicate CarriesAny(codec: Codec, nals: seq<seq<byte>>)
  {
    exists t :: t in SetTypes(codec) && Carries(codec, nals, t)
  }

  /** The NAL units of the last keyframe with a parameter set; none if there was no such keyframe. */
  ghost function LastWith(codec: Codec, aus: seq<seq<Unit>>): seq<seq<byte>>
  {
    if aus == [] then []
    else if CarriesAny(codec, Nals(aus[|aus| - 1])) then Nals(aus[|aus| - 1])
    else LastWith(codec, aus[..|aus| - 1])
  }

  lemma {:induction false} SetsAre(codec: Codec, nals: seq<seq<byte>>)
    ensures forall p :: p in Sets(codec, nals) <==> p in nals && p != [] && UnitType(codec, p) in SetTypes(codec)
  {
    if nals != [] {
      var front, last := nals[..|nals| - 1], nals[|nals| - 1];
      SetsAre(codec, front);
      assert nals == front + [last];
      if last != [] { TypeDecides(codec, last); }
      hide IsParameterSet, UnitType, SetTypes;
    }
  }

  lemma SetsCarry(codec: Codec, nals: seq<seq<byte>>)
    ensures Sets(codec, nals) != [] <==> CarriesAny(codec, nals)
    ensures forall t | t in SetTypes(codec) :: Carries(codec, Sets(codec, nals), t) <==> Carries(codec, nals, t)
  {
    SetsAre(codec, nals);
    hide Sets, UnitType, SetTypes;
    if Sets(codec, nals) != [] {
      var p := Sets(codec, nals)[0];
      assert p in Sets(codec, nals);
      assert Carries(codec, nals, UnitType(codec, p));
    }
    if t :| t in SetTypes(codec) && Carries(codec, nals, t) {
      var p :| p in nals && p != [] && UnitType(codec, p) == t;
      assert p in Sets(codec, nals);
    }
  }

  lemma {:induction false} LastSetsCarry(codec: Codec, aus: seq<seq<Unit>>)
    ensures forall t | t in SetTypes(codec) ::
              Carries(codec, LastSets(codec, aus), t) <==> Carries(codec, LastWith(codec, aus), t)
  {
    if aus != [] {
      LastSetsCarry(codec, aus[..|aus| - 1]);
      SetsCarry(codec, Nals(aus[|aus| - 1]));
      hide Sets, Carries, CarriesAny, SetTypes;
    }
  }

  lemma CarriesEither(codec: Codec, a: seq<seq<byte>>, b: seq<seq<byte>>, t: nat)
    ensures Carries(codec, a + b, t) <==> Carries(codec, a, t) || Carries(codec, b, t)
  {
    assert forall p :: p in a + b <==> p in a || p in b;
    if Carries(codec, a, t) {
      var p :| p in a && p != [] && UnitType(codec, p) == t;
      assert p in a + b;
    }
    if Carries(codec, b, t) {
      var p :| p in b && p != [] && UnitType(codec, p) == t;
      assert p in a + b;
    }
  }

  /**
   * A keyframe is sent with a parameter set of type `t` exactly when the last keyframe with any parameter set, up to
   * and with this one, has one of that type.
   */
  lemma KeyframesCarryTypes(codec: Codec, aus: seq<seq<Unit>>, us: seq<Unit>, t: nat)
    requires KeyframesOk(aus) && UnitsOk(us) && t in SetTypes(codec)
    ensures Carries(codec, Split(Ensured(codec, HeaderAfter(codec, aus), Joined(us)).1), t)
       <==> Carries(codec, LastWith(codec, aus + [us]), t)
  {
    KeyframesCarrySets(codec, aus, us);
    SetsCarry(codec, Nals(us));
    LastSetsCarry(codec, aus);
    assert (aus + [us])[..|aus|] == aus;
    hide Sets, Carries, SetTypes, Split, Ensured, HeaderAfter, LastSets, IsParameterSet;
    if CarriesAny(codec, Nals(us)) {
      assert [] + Nals(us) == Nals(us);
    } else {
      CarriesEither(codec, LastSets(codec, aus), Nals(us), t);
    }
  }

  /** A keyframe that has parameter sets has one of every type. */
  ghost predicate AllOrNone(codec: Codec, us: seq<Unit>)
  {
    CarriesAny(codec, Nals(us)) ==> forall t | t in SetTypes(codec) :: Carries(codec, Nals(us), t)
  }

  lemma {:induction false} LastWithHasAll(codec: Codec, aus: seq<seq<Unit>>, t: nat)
    requires (forall au | au in aus :: AllOrNone(codec, au)) && t in SetTypes(codec)
    requires exists au :: au in aus && CarriesAny(codec, Nals(au))
    ensures Carries(codec, LastWith(codec, aus), t)
  {
    hide CarriesAny, Carries, SetTypes;
    var front, last := aus[..|aus| - 1], aus[|aus| - 1];
    assert last in aus && aus == front + [last];
    if !CarriesAny(codec, Nals(last)) { LastWithHasAll(codec, front, t); }
  }

  /** So when keyframes carry all types or none, every keyframe from the first with any on is sent with all of them. */
  lemma KeyframesCarryAllTypes(codec: Codec, aus: seq<seq<Unit>>, us: seq<Unit>, t: nat)
    requires KeyframesOk(aus + [us]) && (forall au | au in aus + [us] :: AllOrNone(codec, au)) && t in SetTypes(codec)
    requires exists au :: au in aus + [us] && CarriesAny(codec, Nals(au))
    ensures Carries(codec, Split(Ensured(codec, HeaderAfter(codec, aus), Joined(us)).1), t)
  {
    assert forall au | au in aus :: au in aus + [us];
    assert us in aus + [us];
    LastWithHasAll(codec, aus + [us], t);
    KeyframesCarryTypes(codec, aus, us, t);
  }

  lemma TinyUnit(b: byte)
    ensures NalOk([b, 1]) && UnitType(H264, [b, 1]) == b % 32
  {
    TypeIs(H264, [b, 1]);
  }

  /** A keyframe with other parameter sets but none of type `t`, and the next without any, are sent without type `t`. */
  lemma TypeForgotten(codec: Codec, aus: seq<seq<Unit>>, us: seq<Unit>, next: seq<Unit>, t: nat)
    requires KeyframesOk(aus) && UnitsOk(us) && UnitsOk(next) && t in SetTypes(codec)
    requires CarriesAny(codec, Nals(us)) && !Carries(codec, Nals(us), t) && !CarriesAny(codec, Nals(next))
    ensures !Carries(codec, Split(Ensured(codec, HeaderAfter(codec, aus), Joined(us)).1), t)
    ensures !Carries(codec, Split(Ensured(codec, HeaderAfter(codec, aus + [us]), Joined(next)).1), t)
  {
    hide Carries, CarriesAny, SetTypes, Split, Ensured, HeaderAfter, Joined, UnitsOk;
    KeyframesCarryTypes(codec, aus, us, t);
    KeyframesCarryTypes(codec, aus + [us], next, t);
    assert (aus + [us] + [next])[..|aus| + 1] == aus + [us];
  }

  /** A keyframe of a PPS and a picture replaces the SPS and PPS kept: the next picture alone is sent without an SPS. */
  lemma SpsForgotten(sps: seq<byte>, pps: seq<byte>, idr: seq<byte>)
    requires sps == [0x67, 1] && pps == [0x68, 1] && idr == [0x65, 1]
    ensures var first, second, third := Long([sps, pps, idr]), Long([pps, idr]), Long([idr]);
      && Carries(H264, Nals(first), 7)
      && !Carries(H264, Split(Ensured(H264, HeaderAfter(H264, [first]), Joined(second)).1), 7)
      && !Carries(H264, Split(Ensured(H264, HeaderAfter(H264, [first] + [second]), Joined(third)).1), 7)
  {
    hide *;
    TinyUnit(0x67);
    TinyUnit(0x68);
    TinyUnit(0x65);
    PpsAlone(sps, pps, idr);
  }

  lemma PpsAlone(sps: seq<byte>, pps: seq<byte>, idr: seq<byte>)
    requires NalOk(sps) && NalOk(pps) && NalOk(idr)
    requires UnitType(H264, sps) == 7 && UnitType(H264, pps) == 8 && UnitType(H264, idr) == 5
    ensures var first, second, third := Long([sps, pps, idr]), Long([pps, idr]), Long([idr]);
      && Carries(H264, Nals(first), 7)
      && !Carries(H264, Split(Ensured(H264, HeaderAfter(H264, [first]), Joined(second)).1), 7)
      && !Carries(H264, Split(Ensured(H264, HeaderAfter(H264, [first] + [second]), Joined(third)).1), 7)
  {
    assert sps != [] && pps != [] && idr != [];
    hide UnitType, NalOk, Split, Ensured, HeaderAfter, Joined;
    var first, second, third := Long([sps, pps, idr]), Long([pps, idr]), Long([idr]);
    assert Nals(first) == [sps, pps, idr] && Nals(second) == [pps, idr] && Nals(third) == [idr];
    assert sps in Nals(first) && pps in Nals(second);
    assert Carries(H264, Nals(second), 8);
    TypeForgotten(H264, [first], second, third, 7);
  }
}
