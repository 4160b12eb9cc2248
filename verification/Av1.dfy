/** The encoder's safety net for AV1: every keyframe leaves with a sequence header. */
module Av1 {
  import opened Bits

  const SEQUENCE_HEADER: nat := 1
  const TEMPORAL_DELIMITER: nat := 2

  function KindOf(h: byte): nat { h as nat / 8 % 16 }

  predicate HasExtension(h: byte) { h as nat / 4 % 2 == 1 }

  predicate HasSize(h: byte) { h as nat / 2 % 2 == 1 }

  /** A leb128 number at position `i`, and the position behind it; the end of the data ends it too. */
  function ReadSize(d: seq<byte>, i: nat): (r: (nat, nat))
    requires i <= |d|
    ensures i <= r.1 <= |d|
    decreases |d| - i
  {
    if i == |d| then (0, i)
    else if d[i] < 0x80 then (d[i], i + 1)
    else
      var rest := ReadSize(d, i + 1);
      (d[i] as nat % 128 + 128 * rest.0, rest.1)
  }

  /** A number read from `k` bytes has 7k bits: up to nine bytes, more than leb128 allows, fit the program's 64. */
  lemma {:induction false} SizeFits(d: seq<byte>, i: nat)
    requires i <= |d|
    ensures ReadSize(d, i).0 < Pow2(7 * (ReadSize(d, i).1 - i))
    decreases |d| - i
  {
    if i < |d| && d[i] >= 0x80 {
      SizeFits(d, i + 1);
      Pow2Add(7, 7 * (ReadSize(d, i + 1).1 - (i + 1)));
    }
    assert Pow2(7) == 128;
  }

  /** The first sequence header OBU from position `i` on. */
  function Walk(d: seq<byte>, i: nat): Option<seq<byte>>
    requires i <= |d|
    decreases |d| - i
  {
    if i == |d| then None
    else
      var at := if HasExtension(d[i]) then i + 2 else i + 1;
      if !HasSize(d[i]) || at > |d| then None
      else
        var size := ReadSize(d, at);
        var end := size.1 + size.0;
        if end > |d| then None
        else if KindOf(d[i]) == SEQUENCE_HEADER then Some(d[i..end])
        else Walk(d, end)
  }

  lemma SizeStep(d: seq<byte>, at: nat, scale: nat)
    requires at < |d|
    ensures var low := d[at] as nat % 128;
      && (d[at] < 0x80 ==> ReadSize(d, at) == (low, at + 1))
      && (d[at] >= 0x80 ==>
            && ReadSize(d, at).1 == ReadSize(d, at + 1).1
            && scale * ReadSize(d, at).0 == scale * low + scale * 128 * ReadSize(d, at + 1).0)
  {
    if d[at] >= 0x80 {
      Distributes(scale, ReadSize(d, at).0, d[at] as nat % 128, ReadSize(d, at + 1).0);
    }
  }

  lemma Distributes(scale: nat, whole: nat, x: nat, y: nat)
    requires whole == x + 128 * y
    ensures scale * whole == scale * x + scale * 128 * y
  {
  }

  /** The loop that reads a size, seven bits at a time. */
  method SizeAt(d: seq<byte>, at: nat) returns (size: nat, next: nat)
    requires at <= |d|
    ensures (size, next) == ReadSize(d, at)
  {
    size, next := 0, at;
    var scale: nat := 1;
    NoSize(d);
    hide ReadSize;
    while next < |d|
      invariant at <= next <= |d|
      invariant ReadSize(d, at) == (size + scale * ReadSize(d, next).0, ReadSize(d, next).1)
    {
      SizeStep(d, next, scale);
      var b := d[next];
      size := size + scale * (b as nat % 128);
      next := next + 1;
      if b < 0x80 { return; }
      scale := scale * 128;
    }
  }

  lemma NoSize(d: seq<byte>)
    ensures ReadSize(d, |d|) == (0, |d|)
  {
  }

  method HasSequenceHeader(d: seq<byte>) returns (found: Option<seq<byte>>)
    ensures found == Walk(d, 0)
  {
    var i := 0;
    while i < |d|
      invariant i <= |d| && Walk(d, i) == Walk(d, 0)
    {
      var start, h := i, d[i];
      i := i + 1;
      if HasExtension(h) { i := i + 1; }
      if !HasSize(h) || i > |d| { return None; }
      var size, next := SizeAt(d, i);
      if next + size > |d| { return None; }
      if KindOf(h) == SEQUENCE_HEADER { return Some(d[start..next + size]); }
      i := next + size;
    }
    found := None;
  }

  // ----- the walk finds what was written -----

  type Kind = k: nat | k < 16

  /** An open bitstream unit with a size field; `flags` are the header's first and last bit. */
  datatype Obu = Obu(kind: Kind, extension: Option<byte>, flags: (bool, bool), payload: seq<byte>)
  {
    function Header(): byte {
      (if flags.0 then 128 else 0) + kind * 8 + (if extension.Some? then 4 else 0) + 2 + (if flags.1 then 1 else 0)
    }

    function Extension(): seq<byte> {
      if extension.Some? then [extension.value] else []
    }

    function Printed(): (s: seq<byte>)
      ensures |s| > 0
    {
      [Header()] + Extension() + Leb128(|payload|) + payload
    }
  }

  function Leb128(n: nat): (s: seq<byte>)
    ensures |s| > 0
  {
    if n < 128 then [n] else [n % 128 + 128] + Leb128(n / 128)
  }

  function Joined(os: seq<Obu>): seq<byte>
  {
    if os == [] then [] else os[0].Printed() + Joined(os[1..])
  }

  /** The first sequence header among the units. */
  function First(os: seq<Obu>): (r: Option<Obu>)
    ensures r.Some? ==> r.value.kind == SEQUENCE_HEADER && r.value in os
  {
    if os == [] then None else if os[0].kind == SEQUENCE_HEADER then Some(os[0]) else First(os[1..])
  }

  lemma {:induction false} ReadsSize(d: seq<byte>, i: nat, n: nat, rest: seq<byte>)
    requires i <= |d| && d[i..] == Leb128(n) + rest
    ensures ReadSize(d, i) == (n, |d| - |rest|)
    decreases n
  {
    assert d[i] == d[i..][0] == Leb128(n)[0];
    if n >= 128 {
      assert d[i + 1..] == d[i..][1..] == Leb128(n / 128) + rest;
      ReadsSize(d, i + 1, n / 128, rest);
    } else {
      assert |d| == i + 1 + |rest|;
    }
  }

  lemma HeaderByte(o: Obu)
    ensures KindOf(o.Header()) == o.kind && HasSize(o.Header()) && (HasExtension(o.Header()) <==> o.extension.Some?)
  {
  }

  /** Where the parts of a unit are. */
  lemma Parts(d: seq<byte>, i: nat, o: Obu, rest: seq<byte>)
    requires i <= |d| && d[i..] == o.Printed() + rest
    ensures var at, end := i + 1 + |o.Extension()|, i + |o.Printed()|;
      && at <= end <= |d| && d[i] == o.Header() && d[i..end] == o.Printed() && d[end..] == rest
      && d[at..] == Leb128(|o.payload|) + (o.payload + rest) && end == |d| - |rest|
  {
    hide Leb128, Obu.Header, Obu.Extension;
    var t, at, end := d[i..], 1 + |o.Extension()|, |o.Printed()|;
    assert t[0] == o.Header();
    assert t[at..] == Leb128(|o.payload|) + (o.payload + rest);
    assert t[..end] == o.Printed() && t[end..] == rest;
    assert d[i + at..] == t[at..] && d[i + end..] == t[end..] && d[i..i + end] == t[..end];
  }

  lemma WalksOne(d: seq<byte>, i: nat, o: Obu, rest: seq<byte>)
    requires i <= |d| && d[i..] == o.Printed() + rest
    ensures i + |o.Printed()| <= |d| && d[i + |o.Printed()|..] == rest
    ensures Walk(d, i) == if o.kind == SEQUENCE_HEADER then Some(o.Printed()) else Walk(d, i + |o.Printed()|)
  {
    HeaderByte(o);
    Parts(d, i, o, rest);
    ReadsSize(d, i + 1 + |o.Extension()|, |o.payload|, o.payload + rest);
    hide KindOf, HasSize, HasExtension, Obu.Header, Obu.Printed, ReadSize, Leb128;
  }

  lemma {:induction false} WalkFinds(d: seq<byte>, i: nat, os: seq<Obu>)
    requires i <= |d| && d[i..] == Joined(os)
    ensures Walk(d, i) == match First(os) case Some(o) => Some(o.Printed()) case None => None
    decreases |os|
  {
    hide Obu.Printed;
    if os != [] {
      WalksOne(d, i, os[0], Joined(os[1..]));
      if os[0].kind != SEQUENCE_HEADER { WalkFinds(d, i + |os[0].Printed()|, os[1..]); }
    }
  }

  // ----- the safety net -----

  /** The header kept after a keyframe, and the keyframe as it is sent. */
  function Ensured(header: seq<byte>, au: seq<byte>): (seq<byte>, seq<byte>)
  {
    match Walk(au, 0)
    case Some(found) => (found, au)
    case None =>
      if header == [] then (header, au)
      else
        var at := if |au| >= 2 && KindOf(au[0]) == TEMPORAL_DELIMITER then 2 else 0;
        (header, au[..at] + header + au[at..])
  }

  class Encoder {
    var header: seq<byte>

    constructor ()
      ensures header == []
    {
      header := [];
    }

    method EnsureParameterSets(au: seq<byte>) returns (sent: seq<byte>)
      modifies this
      ensures (header, sent) == Ensured(old(header), au)
    {
      var found := HasSequenceHeader(au);
      sent := au;
      if found.Some? {
        header := found.value;
      } else if header != [] {
        var at := if |au| >= 2 && KindOf(au[0]) == TEMPORAL_DELIMITER then 2 else 0;
        sent := au[..at] + header + au[at..];
      }
    }
  }

  /** What of a leading temporal delimiter stands behind the two bytes it is taken to have. */
  function Cut(os: seq<Obu>): seq<byte>
  {
    if os != [] && os[0].kind == TEMPORAL_DELIMITER then
      SizeIsThere(os[0]);
      os[0].Printed()[2..]
    else []
  }

  lemma SizeIsThere(o: Obu)
    ensures |o.Printed()| >= 2
    ensures |o.Printed()| == 2 ==> o.extension.None? && o.payload == []
    ensures o.extension.None? && o.payload == [] ==> |o.Printed()| == 2
  {
    assert Leb128(0) == [0];
  }

  /** A header put behind those two bytes and one put behind the whole delimiter give the same bytes. */
  predicate Fits(q: Obu, os: seq<Obu>)
  {
    Cut(os) + q.Printed() == q.Printed() + Cut(os)
  }

  /** A delimiter as encoders write it, empty and without extension, is cut nowhere. */
  lemma EmptyDelimiterFits(q: Obu, os: seq<Obu>)
    ensures var plain := os != [] && os[0].kind == TEMPORAL_DELIMITER ==> os[0].extension.None? && os[0].payload == [];
      (plain <==> Cut(os) == []) && (plain ==> Fits(q, os))
  {
    if os != [] { SizeIsThere(os[0]); }
    hide Obu.Printed;
  }

  /** Where the sequence header goes: behind the temporal delimiter, if there is one. */
  function With(q: Obu, os: seq<Obu>): seq<Obu>
  {
    if os != [] && os[0].kind == TEMPORAL_DELIMITER then [os[0], q] + os[1..] else [q] + os
  }

  lemma JoinedCons(o: Obu, os: seq<Obu>)
    ensures Joined([o] + os) == o.Printed() + Joined(os)
  {
    assert ([o] + os)[1..] == os;
  }

  lemma StartsWith(os: seq<Obu>)
    requires os != []
    ensures |Joined(os)| >= 2 && KindOf(Joined(os)[0]) == os[0].kind
    ensures Joined(os) == os[0].Printed() + Joined(os[1..])
    ensures |os[0].Printed()| >= 2
  {
    HeaderByte(os[0]);
    SizeIsThere(os[0]);
    assert Joined(os)[0] == os[0].Header();
    hide KindOf, Obu.Header, Obu.Printed;
  }

  /** Putting `q` behind the first two bytes of a unit `u` is putting it behind `u` exactly when the two commute. */
  lemma PutsBehind(d: seq<byte>, u: seq<byte>, x: seq<byte>, q: seq<byte>, rest: seq<byte>)
    requires d == u + rest && |u| >= 2 && x == u[2..]
    ensures d[..2] + q + d[2..] == u + (q + rest) <==> x + q == q + x
  {
    var a, n := u[..2], |u| + |q|;
    assert d[..2] == a && d[2..] == x + rest && u == a + x;
    var l, r := a + q + (x + rest), u + (q + rest);
    assert l == a + (q + x) + rest && r == a + (x + q) + rest;
    assert l[2..n] == q + x && r[2..n] == x + q;
  }

  /** Nothing is found in the keyframe, so the kept header is put into it. */
  lemma Put(header: seq<byte>, os: seq<Obu>)
    requires header != [] && First(os).None?
    ensures var d := Joined(os); var at := if |d| >= 2 && KindOf(d[0]) == TEMPORAL_DELIMITER then 2 else 0;
      Ensured(header, d).1 == d[..at] + header + d[at..]
  {
    assert Joined(os)[0..] == Joined(os);
    WalkFinds(Joined(os), 0, os);
  }

  lemma JoinedWith(q: Obu, os: seq<Obu>)
    requires os != []
    ensures Joined(With(q, os)) ==
      if os[0].kind == TEMPORAL_DELIMITER then os[0].Printed() + (q.Printed() + Joined(os[1..]))
      else q.Printed() + Joined(os)
  {
    hide Obu.Printed;
    if os[0].kind == TEMPORAL_DELIMITER {
      assert With(q, os) == [os[0]] + ([q] + os[1..]);
      JoinedCons(os[0], [q] + os[1..]);
      JoinedCons(q, os[1..]);
    } else {
      JoinedCons(q, os);
    }
  }

  /** The keyframe goes out as its units with the header behind the delimiter exactly when the header fits. */
  lemma Inserts(q: Obu, os: seq<Obu>)
    requires q.kind == SEQUENCE_HEADER && First(os).None?
    ensures Ensured(q.Printed(), Joined(os)).1 == Joined(With(q, os)) <==> Fits(q, os)
  {
    hide Ensured, Joined, Obu.Printed, With, KindOf, First;
    Put(q.Printed(), os);
    if os == [] {
      JoinedNone(q);
    } else {
      var d := Joined(os);
      StartsWith(os);
      JoinedWith(q, os);
      if os[0].kind == TEMPORAL_DELIMITER {
        PutsBehind(d, os[0].Printed(), Cut(os), q.Printed(), Joined(os[1..]));
      } else {
        assert d[..0] + q.Printed() + d[0..] == q.Printed() + d;
      }
    }
  }

  lemma JoinedNone(q: Obu)
    ensures Joined([]) == [] && Joined(With(q, [])) == q.Printed()
  {
    assert With(q, []) == [q] && Joined([q]) == q.Printed();
  }

  lemma FirstIsPut(q: Obu, os: seq<Obu>)
    requires q.kind == SEQUENCE_HEADER && First(os).None?
    ensures First(With(q, os)) == Some(q)
  {
    if os != [] && os[0].kind == TEMPORAL_DELIMITER {
      assert [os[0], q] + os[1..] == [os[0]] + ([q] + os[1..]);
      assert ([os[0], q] + os[1..])[1..] == [q] + os[1..];
    }
  }

  /** A delimiter with an extension is cut in two, and what is sent no longer has a header to find. */
  lemma DelimiterCut(q: Obu, td: Obu)
    requires q == Obu(SEQUENCE_HEADER, None, (false, false), [])
    requires td == Obu(TEMPORAL_DELIMITER, Some(0), (false, false), [])
    ensures var sent := Ensured(q.Printed(), Joined([td])).1;
      sent == [0x16, 0, 0x0A, 0, 0] && Walk(sent, 0).None? && !Fits(q, [td])
  {
    assert Leb128(0) == [0];
    assert q.Printed() == [0x0A, 0] && td.Printed() == [0x16, 0, 0] && Joined([td]) == td.Printed();
    hide Walk, Leb128, Obu.Printed;
    assert First([td]).None?;
    Put(q.Printed(), [td]);
    var d: seq<byte> := [0x16, 0, 0];
    assert d[..2] + [0x0A, 0] + d[2..] == [0x16, 0, 0x0A, 0, 0];
    OverlongIsRefused([0x16, 0, 0x0A, 0, 0]);
    assert Cut([td]) == [0];
    assert ([0] + q.Printed())[0] == 0 && (q.Printed() + [0])[0] == 0x0A;
  }

  lemma OverlongIsRefused(d: seq<byte>)
    requires d == [0x16, 0, 0x0A, 0, 0]
    ensures Walk(d, 0).None?
  {
    assert ReadSize(d, 2) == (10, 3);
  }

  // ----- runs -----

  function HeaderAfter(aus: seq<seq<byte>>): seq<byte>
  {
    if aus == [] then [] else Ensured(HeaderAfter(aus[..|aus| - 1]), aus[|aus| - 1]).0
  }

  /** The sequence header of the last keyframe that had one. */
  function LastHeader(aus: seq<seq<Obu>>): Option<Obu>
  {
    if aus == [] then None
    else if First(aus[|aus| - 1]).Some? then First(aus[|aus| - 1])
    else LastHeader(aus[..|aus| - 1])
  }

  function Printed(aus: seq<seq<Obu>>): (r: seq<seq<byte>>)
    ensures |r| == |aus|
  {
    seq(|aus|, k requires 0 <= k < |aus| => Joined(aus[k]))
  }

  lemma {:induction false} HeaderKeepsLast(aus: seq<seq<Obu>>)
    ensures LastHeader(aus).Some? ==> LastHeader(aus).value.kind == SEQUENCE_HEADER
    ensures HeaderAfter(Printed(aus)) == match LastHeader(aus) case Some(q) => q.Printed() case None => []
    ensures LastHeader(aus).Some? <==> exists au :: au in aus && First(au).Some?
  {
    if aus != [] {
      var front, last := aus[..|aus| - 1], aus[|aus| - 1];
      assert last in aus && forall au :: au in aus <==> au in front || au == last;
      HeaderKeepsLast(front);
      assert Printed(aus)[..|aus| - 1] == Printed(front);
      WalkFinds(Joined(last), 0, last);
      assert Joined(last)[0..] == Joined(last);
      hide Walk, First, Joined, Obu.Printed;
    }
  }

  /**
   * Once a keyframe carried a sequence header, every later one is sent with one, its own units as they were, exactly
   * when the header fits behind its delimiter; behind one as encoders write it any header does.
   */
  lemma KeyframesCarryHeader(aus: seq<seq<Obu>>, os: seq<Obu>)
    ensures var sent := Ensured(HeaderAfter(Printed(aus)), Joined(os)).1; var last := LastHeader(aus);
      && (First(os).Some? || last.None? ==> sent == Joined(os))
      && (First(os).None? && last.Some? ==> (sent == Joined(With(last.value, os)) <==> Fits(last.value, os)))
      && ((First(os).None? && last.Some? ==> Fits(last.value, os)) ==>
            (Walk(sent, 0).Some? <==> First(os).Some? || exists au :: au in aus && First(au).Some?))
  {
    HeaderKeepsLast(aus);
    WalkFinds(Joined(os), 0, os);
    assert Joined(os)[0..] == Joined(os);
    if First(os).None? && LastHeader(aus).Some? {
      var q := LastHeader(aus).value;
      Inserts(q, os);
      FirstIsPut(q, os);
      var all := Joined(With(q, os));
      assert all[0..] == all;
      WalkFinds(all, 0, With(q, os));
    }
  }
}
