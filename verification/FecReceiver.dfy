/** The client's side of FEC: collecting a frame's packets and rebuilding one lost chunk per parity group. */
module FecReceiver {
  import opened Bits
  import opened Wire
  import opened Fec

  // ----- exclusive or over a class -----

  /** Chunks outside the class leave the sum unchanged, so the loop may step by `p`. */
  lemma {:induction false} XorSkips(data: seq<byte>, i: nat, k: nat, p: nat, b: nat, skip: int)
    requires p > 0 && i < k <= i + p
    ensures XorOf(data, k, p, i % p, b, skip)
         == if i == skip then XorOf(data, i, p, i % p, b, skip)
            else XorByte(XorOf(data, i, p, i % p, b, skip), At(data, i, b))
  {
    if k > i + 1 {
      ClassGap(i, k - 1, p);
      XorSkips(data, i, k - 1, p, b, skip);
    }
  }

  /** Before the first chunk of the class there is nothing to sum. */
  lemma {:induction false} XorStarts(data: seq<byte>, j: nat, p: nat, b: nat, skip: int, n: nat)
    requires n <= j < p
    ensures XorOf(data, n, p, j, b, skip) == 0
  {
    if n > 0 {
      SmallMod(n - 1, p);
      XorStarts(data, j, p, b, skip, n - 1);
    }
  }

  /** The whole sum is the sum without a chunk, and that chunk. */
  lemma {:induction false} XorWithout(data: seq<byte>, n: nat, p: nat, j: nat, b: nat, skip: nat)
    requires p > 0 && skip % p == j
    ensures XorOf(data, n, p, j, b, -1) == if skip < n then XorByte(XorOf(data, n, p, j, b, skip), At(data, skip, b))
                                           else XorOf(data, n, p, j, b, skip)
  {
    if n > 0 {
      XorWithout(data, n - 1, p, j, b, skip);
      var w, x, y := XorOf(data, n - 1, p, j, b, skip), At(data, skip, b), At(data, n - 1, b);
      XorAssociates(w, x, y);
      XorAssociates(w, y, x);
      XorCommutes(x, y);
    }
  }

  /** What is left of the parity after the other chunks of the class is the missing chunk. */
  lemma XorRecovers(data: seq<byte>, n: nat, p: nat, j: nat, b: nat, missing: nat)
    requires p > 0 && missing < n && missing % p == j
    ensures XorByte(XorOf(data, n, p, j, b, -1), XorOf(data, n, p, j, b, missing)) == At(data, missing, b)
  {
    XorWithout(data, n, p, j, b, missing);
    var w, x := XorOf(data, n, p, j, b, missing), At(data, missing, b);
    XorCommutes(w, x);
    XorAssociates(x, w, w);
    XorSelf(w);
  }

  // ----- what a client knows of a frame -----

  /** The chunks known from data packets `d` and parity packets `par`: received, or alone missing in their class. */
  ghost function Known(n: nat, p: nat, d: set<nat>, par: set<nat>): set<nat>
  {
    set i | 0 <= i < n && (i in d || (p > 0 && i % p in par && OthersIn(n, p, d, i)))
  }

  ghost predicate OthersIn(n: nat, p: nat, d: set<nat>, i: nat)
    requires p > 0
  {
    forall k | 0 <= k < n && k % p == i % p && k != i :: k in d
  }

  class FrameEntry {
    var chunks: map<nat, seq<byte>>
    var parity: map<nat, seq<byte>>
    var parityCount: nat
    var frameSize: nat
    var total: nat

    /** The entry holds what the packets `d` and `par` of the frame `data` let a client know, and nothing else. */
    ghost predicate Holds(data: seq<byte>, d: set<nat>, par: set<nat>)
      reads this
    {
      var n := ChunkCount(|data|);
      var p := ParityCount(n);
      && 0 < |data| <= 0xFFFF * MAX_UDP_PAYLOAD && total == n
      && (forall i | i in d :: i < n) && (forall j | j in par :: j < p)
      && chunks.Keys == Known(n, p, d, par)
      && (forall i | i in chunks :: ChunkStart(|data|, i); chunks[i] == Chunk(data, i))
      && parity.Keys == par && (forall j | j in par :: parity[j] == ParityChunk(data, j))
      && (if par == {} then parityCount == 0 else parityCount == p && frameSize == |data|)
    }

    constructor (total: nat)
      ensures chunks == map[] && parity == map[] && parityCount == 0 && this.total == total
    {
      chunks, parity, parityCount, frameSize, this.total := map[], map[], 0, 0, total;
    }

    /** The one chunk of parity class `group` not here; -1 when none or more than one is missing. */
    method MissingIn(group: nat) returns (missing: int)
      requires group < parityCount
      ensures missing >= 0 <==>
        exists i :: IsOnlyMissing(chunks.Keys, total, parityCount, group, i)
      ensures missing >= 0 ==> IsOnlyMissing(chunks.Keys, total, parityCount, group, missing)
    {
      missing := -1;
      var i := group;
      SmallMod(group, parityCount);
      while i < total
        invariant i % parityCount == group && i >= group
        invariant missing == -1 || (0 <= missing < i && missing < total && missing % parityCount == group &&
            missing !in chunks)
        invariant forall k | 0 <= k < i && k < total && k % parityCount == group && k != missing :: k in chunks
      {
        if i !in chunks {
          if missing >= 0 {
            TwoMissing(chunks.Keys, total, parityCount, group, missing, i);
            return -1;
          }
          missing := i;
        }
        forall k | i < k < i + parityCount ensures k % parityCount != group { ClassGap(i, k, parityCount); }
        ModNext(i, parityCount);
        i := i + parityCount;
      }
      assert missing >= 0 ==> IsOnlyMissing(chunks.Keys, total, parityCount, group, missing);
    }

    /** The entry's values are those of the frame `data`, whichever of them it has. */
    ghost predicate Correct(data: seq<byte>)
      reads this
    {
      var n := ChunkCount(|data|);
      var p := ParityCount(n);
      && 0 < |data| <= 0xFFFF * MAX_UDP_PAYLOAD && total == n && parityCount == p > 0 && frameSize == |data|
      && (forall i | i in chunks :: i < n && chunks[i] == Chunk(data, i))
      && (forall j | j in parity :: j < p && parity[j] == ParityChunk(data, j))
    }

    method StoreParity(group: nat, count: nat, size: nat, xor: seq<byte>, ghost data: seq<byte>,
                       ghost d: set<nat>, ghost par: set<nat>)
      requires Holds(data, d, par)
      requires group < count == ParityCount(total) && size == |data| && xor == ParityChunk(data, group)
      modifies this
      ensures Holds(data, d, par + {group})
    {
      parityCount := count;
      frameSize := size;
      parity := parity[group := xor];
      KnownWithParity(total, parityCount, d, par, group);
      hide Known, Rebuilt, ParityChunk, Chunk;
      RebuildChunk(group, data);
    }

    method StoreData(i: nat, payload: seq<byte>, ghost data: seq<byte>, ghost d: set<nat>, ghost par: set<nat>)
      requires Holds(data, d, par) && i < total && MAX_UDP_PAYLOAD * i <= |data| && payload == Chunk(data, i)
      modifies this
      ensures Holds(data, d + {i}, par)
    {
      assert forall k | k in chunks :: k < total;
      hide ParityChunk, Chunk, Rebuilt, Known, ChunkCount, ParityCount;
      assert par == {} <==> parityCount == 0 by { PositiveCount(data, d, par); }
      KnownNoParity(total, ParityCount(total), d, i);
      chunks := chunks[i := payload];
      if parityCount > 0 {
        KnownWithData(total, parityCount, d, par, i);
        assert chunks.Keys == Known(total, parityCount, d, par) + {i};
        RebuildChunk(i % parityCount, data);
      } else {
        assert par == {};
      }
      assert chunks.Keys == Known(total, ParityCount(total), d + {i}, par);
    }

    lemma PositiveCount(data: seq<byte>, d: set<nat>, par: set<nat>)
      requires Holds(data, d, par)
      ensures par == {} <==> parityCount == 0
    {
      if j :| j in par { assert j < ParityCount(total); }
    }

    /** One packet of the frame; `a` says which. */
    method OnPacket(packet: seq<byte>, ghost m: nat, ghost f: nat, ghost data: seq<byte>, ghost a: Arrival,
                    ghost d: set<nat>, ghost par: set<nat>)
      requires Sendable(m, f, data) && Holds(data, d, par) && IsPacket(packet, m, f, data, a)
      modifies this
      ensures Holds(data, DataWith(d, a), ParityWith(par, a))
    {
      ReadsPacket(packet, m, f, data, a);
      assert total == ChunkCount(|data|);
      hide Holds, IsPacket, Unpacked, Get16, Get32, ParityChunk, Chunk;
      if |packet| < VIDEO_HEADER_SIZE { return; }
      var h := Unpacked(packet);
      if h.count == 0 { return; }
      var payload := packet[VIDEO_HEADER_SIZE..];
      if h.index >= h.count {
        if |packet| < VIDEO_HEADER_SIZE + PARITY_HEADER_SIZE { return; }
        var count := Get16(payload, 4);
        var group := h.index - h.count;
        if group >= count { return; }
        StoreParity(group, count, Get32(payload, 0), payload[PARITY_HEADER_SIZE..], data, d, par);
      } else {
        StoreData(h.index, payload, data, d, par);
      }
    }

    /** Rebuilds the missing chunk of class `group` when it is the only one and the parity chunk is here. */
    method RebuildChunk(group: nat, ghost data: seq<byte>)
      requires Correct(data) && group < parityCount
      modifies this`chunks
      ensures Correct(data)
      ensures chunks.Keys == old(chunks.Keys) +
                if group in parity then Rebuilt(old(chunks.Keys), total, parityCount, group) else {}
    {
      if group !in parity { return; }
      var missing := MissingIn(group);
      if missing < 0 { return; }
      OneRebuilt(chunks.Keys, total, parityCount, group, missing);
      ChunkLength(data, missing);
      var length := if missing < total - 1 then MAX_UDP_PAYLOAD else frameSize - (total - 1) * MAX_UDP_PAYLOAD;
      if length <= 0 || length > |parity[group]| { return; }
      var acc := XorOthers(group, missing, data);
      RecoversChunk(data, group, missing, acc, acc[..length]);
      chunks := chunks[missing := acc[..length]];
    }

    /** The parity chunk xored with every chunk of its class but the missing one. */
    method XorOthers(group: nat, missing: nat, ghost data: seq<byte>) returns (acc: seq<byte>)
      requires Correct(data) && group < parityCount && group in parity && missing < total
      requires IsOnlyMissing(chunks.Keys, total, parityCount, group, missing)
      ensures |acc| == ParityLen(|data|)
      ensures forall b | 0 <= b < |acc| ::
        acc[b] == XorByte(ParityChunk(data, group)[b], XorOf(data, total, parityCount, group, b, missing))
    {
      acc := parity[group];
      var full := acc;
      SmallMod(group, parityCount);
      forall b | 0 <= b < |full|
        ensures XorByte(full[b], XorOf(data, group, parityCount, group, b, missing)) == full[b] {
        XorStarts(data, group, parityCount, b, missing, group);
        XorZero();
      }
      var i := group;
      while i < total
        invariant i >= group && i % parityCount == group && |acc| == |full|
        invariant forall b | 0 <= b < |acc| ::
          acc[b] == XorByte(full[b], XorOf(data, if i < total then i else total, parityCount, group, b, missing))
      {
        var next := i + parityCount;
        ModNext(i, parityCount);
        ghost var upTo := if next < total then next else total;
        if i != missing {
          var c := chunks[i];
          var acc' := seq(|acc|, b requires 0 <= b < |acc| => XorByte(acc[b], if b < |c| then c[b] else 0));
          forall b | 0 <= b < |acc|
            ensures acc'[b] == XorByte(full[b], XorOf(data, upTo, parityCount, group, b, missing)) {
            XorSkips(data, i, upTo, parityCount, b, missing);
            XorAssociates(full[b], XorOf(data, i, parityCount, group, b, missing), At(data, i, b));
          }
          acc := acc';
        } else {
          forall b | 0 <= b < |acc|
            ensures acc[b] == XorByte(full[b], XorOf(data, upTo, parityCount, group, b, missing)) {
            XorSkips(data, i, upTo, parityCount, b, missing);
          }
        }
        i := next;
      }
    }
  }

  lemma OneRebuilt(have: set<nat>, n: nat, p: nat, group: nat, missing: nat)
    requires p > 0 && IsOnlyMissing(have, n, p, group, missing)
    ensures Rebuilt(have, n, p, group) == {missing}
  {
  }

  lemma ChunkLength(data: seq<byte>, i: nat)
    requires 0 < |data| <= 0xFFFF * MAX_UDP_PAYLOAD && i < ChunkCount(|data|)
    ensures MAX_UDP_PAYLOAD * i < |data| && 0 < |Chunk(data, i)| <= ParityLen(|data|)
    ensures |Chunk(data, i)| == if i < ChunkCount(|data|) - 1 then MAX_UDP_PAYLOAD
                                else |data| - (ChunkCount(|data|) - 1) * MAX_UDP_PAYLOAD
  {
  }

  lemma RecoversChunk(data: seq<byte>, group: nat, missing: nat, acc: seq<byte>, c: seq<byte>)
    requires var n := ChunkCount(|data|); var p := ParityCount(n);
      && 0 < |data| <= 0xFFFF * MAX_UDP_PAYLOAD && missing < n && p > 0 && missing % p == group &&
          |acc| == ParityLen(|data|)
      && (forall b | 0 <= b < |acc| ::
            acc[b] == XorByte(ParityChunk(data, group)[b], XorOf(data, n, p, group, b, missing)))
    requires MAX_UDP_PAYLOAD * missing <= |data| && c <= acc && |c| == |Chunk(data, missing)|
    ensures c == Chunk(data, missing)
  {
    var n := ChunkCount(|data|);
    forall b | 0 <= b < |c| ensures c[b] == Chunk(data, missing)[b] {
      XorRecovers(data, n, ParityCount(n), group, b, missing);
    }
  }

  /** What rebuilding class `group` adds to the chunks `have`. */
  ghost function Rebuilt(have: set<nat>, n: nat, p: nat, group: nat): set<nat>
    requires p > 0
  {
    set i: nat | i < n && IsOnlyMissing(have, n, p, group, i)
  }

  /** A data packet, then rebuilding its class, gives what is known with that packet. */
  lemma KnownWithData(n: nat, p: nat, d: set<nat>, par: set<nat>, i: nat)
    requires p > 0 && i < n
    ensures var have := Known(n, p, d, par) + {i};
      Known(n, p, d + {i}, par) == have + if i % p in par then Rebuilt(have, n, p, i % p) else {}
  {
    var have, d', g := Known(n, p, d, par) + {i}, d + {i}, i % p;
    var all := have + if g in par then Rebuilt(have, n, p, g) else {};
    forall m: nat | m < n ensures m in Known(n, p, d', par) <==> m in all {
      if m in d' || m % p !in par {
      } else if m % p != g {
        OtherClass(n, p, d, i, m);
      } else if OthersIn(n, p, d', m) {
        OnlyMissingIf(n, p, d, par, i, m);
      } else {
        OnlyMissingOnlyIf(n, p, d, par, i, m);
      }
    }
  }

  lemma KnownNoParity(n: nat, p: nat, d: set<nat>, i: nat)
    requires i < n
    ensures Known(n, p, d + {i}, {}) == Known(n, p, d, {}) + {i}
  {
  }

  lemma OtherClass(n: nat, p: nat, d: set<nat>, i: nat, m: nat)
    requires p > 0 && m % p != i % p
    ensures OthersIn(n, p, d + {i}, m) <==> OthersIn(n, p, d, m)
  {
    if OthersIn(n, p, d + {i}, m) {
      forall k | 0 <= k < n && k % p == m % p && k != m ensures k in d {
        assert k in d + {i} && k != i;
      }
    }
  }

  lemma OnlyMissingIf(n: nat, p: nat, d: set<nat>, par: set<nat>, i: nat, m: nat)
    requires p > 0 && i < n && m < n && m % p == i % p && m % p in par && m !in d + {i} && OthersIn(n, p, d + {i}, m)
    ensures var have := Known(n, p, d, par) + {i}; m in have || IsOnlyMissing(have, n, p, i % p, m)
  {
    var have := Known(n, p, d, par) + {i};
    forall k | 0 <= k < n && k % p == i % p && k != m ensures k in have {
      assert k in d + {i};
    }
  }

  lemma OnlyMissingOnlyIf(n: nat, p: nat, d: set<nat>, par: set<nat>, i: nat, m: nat)
    requires p > 0 && i < n && m < n && m % p == i % p && m % p in par && m !in d + {i} && !OthersIn(n, p, d + {i}, m)
    ensures var have := Known(n, p, d, par) + {i}; m !in have && !IsOnlyMissing(have, n, p, i % p, m)
  {
    var k :| 0 <= k < n && k % p == m % p && k != m && k !in d + {i};
    assert !OthersIn(n, p, d, m) && !OthersIn(n, p, d, k) by { assert k !in d && m !in d; }
    assert k !in Known(n, p, d, par) + {i};
  }

  /** A parity packet, then rebuilding its class, gives what is known with that packet. */
  lemma KnownWithParity(n: nat, p: nat, d: set<nat>, par: set<nat>, j: nat)
    requires p > 0 && j < p
    ensures var have := Known(n, p, d, par);
      Known(n, p, d, par + {j}) == have + Rebuilt(have, n, p, j)
  {
    var have := Known(n, p, d, par);
    forall m: nat | m < n ensures m in Known(n, p, d, par + {j}) <==> m in have + Rebuilt(have, n, p, j) {
      if m !in have && m % p == j {
        if OthersIn(n, p, d, m) {
          assert IsOnlyMissing(have, n, p, j, m);
        } else {
          var k :| 0 <= k < n && k % p == m % p && k != m && k !in d;
          assert j !in par || (!OthersIn(n, p, d, k));
          assert k !in have;
        }
      }
    }
  }

  lemma TwoMissing(have: set<nat>, n: nat, p: nat, group: nat, a: nat, b: nat)
    requires p > 0 && a < n && b < n && a != b && a % p == b % p == group && a !in have && b !in have
    ensures !exists i :: IsOnlyMissing(have, n, p, group, i)
  {
    forall i ensures !IsOnlyMissing(have, n, p, group, i) {
      if i == a { assert b != i; } else { assert a != i; }
    }
  }

  ghost predicate IsOnlyMissing(have: set<nat>, n: nat, p: nat, group: nat, i: int)
    requires p > 0
  {
    0 <= i < n && i % p == group && i !in have &&
    forall k | 0 <= k < n && k % p == group && k != i :: k in have
  }

  function DataWith(d: set<nat>, a: Arrival): set<nat>
  {
    if a.DataOf? then d + {a.i} else d
  }

  function ParityWith(par: set<nat>, a: Arrival): set<nat>
  {
    if a.ParityOf? then par + {a.j} else par
  }

  // ----- a whole frame -----

  function ArrivalOf(n: nat, g: nat): Arrival
  {
    if g < n then DataOf(g) else ParityOf(g - n)
  }

  ghost function DataIn(n: nat, got: seq<nat>): set<nat>
  {
    set g | g in got && g < n
  }

  ghost function ParityIn(n: nat, got: seq<nat>): set<nat>
  {
    set g | g in got && g >= n :: g - n
  }

  lemma GotNext(n: nat, got: seq<nat>, k: nat)
    requires k < |got|
    ensures DataIn(n, got[..k + 1]) == DataWith(DataIn(n, got[..k]), ArrivalOf(n, got[k]))
    ensures ParityIn(n, got[..k + 1]) == ParityWith(ParityIn(n, got[..k]), ArrivalOf(n, got[k]))
  {
    assert got[..k + 1] == got[..k] + [got[k]];
    var now, then' := got[..k + 1], got[..k];
    assert forall g :: g in now <==> g in then' || g == got[k];
    if got[k] >= n {
      forall j ensures j in ParityIn(n, now) <==> j in ParityIn(n, then') || j == got[k] - n {
        if j in ParityIn(n, then') { var g :| g in then' && g >= n && g - n == j; assert g in now; }
        if j == got[k] - n { assert got[k] in now; }
      }
    } else {
      forall j ensures j in ParityIn(n, now) <==> j in ParityIn(n, then') {
        if j in ParityIn(n, then') { var g :| g in then' && g >= n && g - n == j; assert g in now; }
      }
    }
  }

  /** Chunk `i` is among the packets `got`, or its parity packet and the rest of its class are. */
  ghost predicate Available(n: nat, p: nat, got: seq<nat>, i: nat)
  {
    i in got || (p > 0 && n + i % p in got && forall k | 0 <= k < n && k % p == i % p && k != i :: k in got)
  }

  ghost predicate Recoverable(n: nat, p: nat, got: seq<nat>)
  {
    forall i | 0 <= i < n :: Available(n, p, got, i)
  }

  lemma KnownIsAvailable(n: nat, p: nat, got: seq<nat>, i: nat)
    requires i < n
    ensures i in Known(n, p, DataIn(n, got), ParityIn(n, got)) <==> Available(n, p, got, i)
  {
    assert forall k: nat | k < n :: k in DataIn(n, got) <==> k in got;
    if p > 0 {
      assert i % p in ParityIn(n, got) <==> n + i % p in got by {
        if n + i % p in got { assert (n + i % p) - n in ParityIn(n, got); }
      }
      assert OthersIn(n, p, DataIn(n, got), i) <==>
             forall k | 0 <= k < n && k % p == i % p && k != i :: k in got;
    }
  }

  ghost function Below(n: nat): (s: set<nat>)
    ensures |s| == n && forall i :: i in s <==> 0 <= i < n
  {
    if n == 0 then {} else Below(n - 1) + {n - 1}
  }

  /** Counting the chunks is enough to see that none is missing. */
  lemma FullByCount(have: set<nat>, n: nat)
    requires forall i | i in have :: i < n
    ensures |have| == n <==> forall i | 0 <= i < n :: i in have
  {
    if forall i | 0 <= i < n :: i in have { assert have == Below(n); }
    if |have| == n { SubsetFull(have, Below(n)); }
  }

  lemma SubsetFull(a: set<nat>, b: set<nat>)
    requires a <= b && |a| == |b|
    ensures a == b
  {
    if x :| x in b && x !in a {
      assert a <= b - {x};
      SmallerSubset(a, b - {x});
    }
  }

  lemma {:induction false} SmallerSubset(a: set<nat>, b: set<nat>)
    requires a <= b
    ensures |a| <= |b|
  {
    if x :| x in a { SmallerSubset(a - {x}, b - {x}); }
  }

  lemma PacketAt(m: nat, f: nat, data: seq<byte>, g: nat)
    requires Sendable(m, f, data) && g < |Packets(m, f, data)|
    ensures IsPacket(Packets(m, f, data)[g], m, f, data, ArrivalOf(ChunkCount(|data|), g))
  {
    if g < ChunkCount(|data|) { ChunkStart(|data|, g); }
  }

  /** `_assemble_frame`: the chunks in order. */
  method Assemble(entry: FrameEntry, ghost data: seq<byte>) returns (frame: seq<byte>)
    requires 0 < |data| <= 0xFFFF * MAX_UDP_PAYLOAD && entry.total == ChunkCount(|data|)
    requires forall i: nat | i < entry.total ::
      i in entry.chunks && MAX_UDP_PAYLOAD * i <= |data| && entry.chunks[i] == Chunk(data, i)
    ensures frame == data
  {
    frame := [];
    for i := 0 to entry.total
      invariant frame == data[..if MAX_UDP_PAYLOAD * i < |data| then MAX_UDP_PAYLOAD * i else |data|]
    {
      ChunkStart(|data|, i);
      ChunksJoin(data, i, frame);
      frame := frame + entry.chunks[i];
    }
    ChunksCover(|data|);
  }

  /**
   * The client's handling of the packets of one frame that reach it: any of them, any number of times, in any order.
   * The frame is shown exactly when every chunk is there or can be rebuilt, and it is the frame the host sent.
   */
  method Reassemble(packets: seq<seq<byte>>, ghost got: seq<nat>, ghost m: nat, ghost f: nat, ghost data: seq<byte>)
    returns (frame: Option<seq<byte>>)
    requires Sendable(m, f, data) && 0 < |data| <= 0xFFFF * MAX_UDP_PAYLOAD && |packets| == |got|
    requires forall k | 0 <= k < |got| :: got[k] < |Packets(m, f, data)| && packets[k] == Packets(m, f, data)[got[k]]
    ensures var n := ChunkCount(|data|);
      frame == if Recoverable(n, ParityCount(n), got) then Some(data) else None
  {
    ghost var n := ChunkCount(|data|);
    ghost var p := ParityCount(n);
    NothingYet(data);
    if packets == [] { return None; }
    PacketAt(m, f, data, got[0]);
    ReadsPacket(packets[0], m, f, data, ArrivalOf(n, got[0]));
    var entry := new FrameEntry(Unpacked(packets[0]).count);
    HoldsNothing(entry, data);
    assert got[..0] == [];
    hide *;
    for k := 0 to |packets|
      invariant fresh(entry) && entry.Holds(data, DataIn(n, got[..k]), ParityIn(n, got[..k]))
      invariant !Recoverable(n, p, got[..k])
    {
      PacketAt(m, f, data, got[k]);
      GotNext(n, got, k);
      entry.OnPacket(packets[k], m, f, data, ArrivalOf(n, got[k]), DataIn(n, got[..k]), ParityIn(n, got[..k]));
      Complete(entry, data, got[..k + 1]);
      if |entry.chunks| == entry.total {
        RecoverableGrows(n, p, got, k + 1);
        var whole := Assemble(entry, data);
        return Some(whole);
      }
    }
    assert got[..|packets|] == got;
    frame := None;
  }

  lemma NothingYet(data: seq<byte>)
    requires 0 < |data| <= 0xFFFF * MAX_UDP_PAYLOAD
    ensures var n := ChunkCount(|data|); n > 0 && !Recoverable(n, ParityCount(n), [])
  {
    assert !Available(ChunkCount(|data|), ParityCount(ChunkCount(|data|)), [], 0);
  }

  lemma HoldsNothing(entry: FrameEntry, data: seq<byte>)
    requires 0 < |data| <= 0xFFFF * MAX_UDP_PAYLOAD && entry.total == ChunkCount(|data|)
    requires entry.chunks == map[] && entry.parity == map[] && entry.parityCount == 0
    ensures entry.Holds(data, DataIn(entry.total, []), ParityIn(entry.total, []))
  {
    var n := entry.total;
    assert DataIn(n, []) == {} && ParityIn(n, []) == {};
    assert Known(n, ParityCount(n), {}, {}) == {};
  }

  lemma Complete(entry: FrameEntry, data: seq<byte>, got: seq<nat>)
    requires var n := ChunkCount(|data|); entry.Holds(data, DataIn(n, got), ParityIn(n, got))
    ensures var n := ChunkCount(|data|);
      && (|entry.chunks| == entry.total <==> Recoverable(n, ParityCount(n), got))
      && entry.total == n
      && (|entry.chunks| == entry.total ==>
            forall i: nat | i < n :: i in entry.chunks && MAX_UDP_PAYLOAD * i <= |data| &&
              entry.chunks[i] == Chunk(data, i))
  {
    var n := ChunkCount(|data|);
    var p := ParityCount(n);
    assert |entry.chunks| == |entry.chunks.Keys|;
    FullByCount(entry.chunks.Keys, n);
    forall i: nat | i < n ensures i in entry.chunks <==> Available(n, p, got, i) {
      KnownIsAvailable(n, p, got, i);
    }
    forall i: nat | i < n ensures MAX_UDP_PAYLOAD * i <= |data| { ChunkStart(|data|, i); }
  }

  lemma RecoverableGrows(n: nat, p: nat, got: seq<nat>, k: nat)
    requires k <= |got| && Recoverable(n, p, got[..k])
    ensures Recoverable(n, p, got)
  {
    assert forall g | g in got[..k] :: g in got;
    forall i | 0 <= i < n ensures Available(n, p, got, i) {
      assert Available(n, p, got[..k], i);
    }
  }

  /** The packets of a frame are its `n` data chunks and then its `p` parity chunks; is packet `g` in the burst? */
  predicate InBurst(first: nat, len: nat, g: nat)
  {
    first <= g < first + len
  }

  /** No chunk of the burst shares its class with another, and none its parity. */
  predicate Spread(n: nat, p: nat, first: nat, len: nat)
    requires p > 0
  {
    forall i | first <= i < n && i < first + len :: first + len <= n + i % p && !(i + p < n && i + p < first + len)
  }

  /** A spread burst leaves enough of every class. */
  lemma SpreadRecoverable(n: nat, p: nat, got: seq<nat>, first: nat, len: nat)
    requires p > 0 && Spread(n, p, first, len) && forall g: nat | g < n + p && !InBurst(first, len, g) :: g in got
    ensures Recoverable(n, p, got)
  {
    forall i | 0 <= i < n ensures Available(n, p, got, i) {
      if InBurst(first, len, i) {
        assert n + i % p in got by { Quotient(i, p); }
        forall k | 0 <= k < n && k % p == i % p && k != i ensures k in got {
          if InBurst(first, len, k) {
            var low, high := if k < i then k else i, if k < i then i else k;
            if high < low + p { ClassGap(low, high, p); }
            assert false;
          }
        }
      }
    }
  }

  /** A burst of any length, data and parity chunks alike, is recovered exactly when it is spread. */
  lemma BurstExactly(n: nat, p: nat, got: seq<nat>, first: nat, len: nat)
    requires p > 0 && forall g: nat :: g in got <==> g < n + p && !InBurst(first, len, g)
    ensures Recoverable(n, p, got) <==> Spread(n, p, first, len)
  {
    if Spread(n, p, first, len) { SpreadRecoverable(n, p, got, first, len); }
    if Recoverable(n, p, got) {
      forall i | first <= i < n && i < first + len
        ensures first + len <= n + i % p && !(i + p < n && i + p < first + len)
      {
        assert Available(n, p, got, i) && !InBurst(first, len, n + i % p);
        ModNext(i, p);
        assert i + p < n ==> i + p in got;
      }
    }
  }

  /** A burst of no more packets than there are parity chunks is lost only if it takes a chunk and its parity. */
  lemma ShortBurst(size: nat, got: seq<nat>, first: nat, len: nat)
    requires 0 < size <= 0xFFFE * MAX_UDP_PAYLOAD
    requires var n := ChunkCount(size); var p := ParityCount(n);
      len <= p && forall g: nat :: g in got <==> g < n + p && !InBurst(first, len, g)
    ensures var n := ChunkCount(size); var p := ParityCount(n);
      p > 0 && (Recoverable(n, p, got) <==> forall i | first <= i < n && i < first + len :: first + len <= n + i % p)
  {
    var n := ChunkCount(size);
    BurstExactly(n, ParityCount(n), got, first, len);
  }

  /** A burst may take as many consecutive data chunks as there are parity chunks. */
  lemma BurstRecoverable(size: nat, got: seq<nat>, first: nat)
    requires 0 < size <= 0xFFFE * MAX_UDP_PAYLOAD
    requires var n := ChunkCount(size); var p := ParityCount(n);
      forall g: nat | g < n + p && !(first <= g < first + p && g < n) :: g in got
    ensures var n := ChunkCount(size); ParityCount(n) > 0 && Recoverable(n, ParityCount(n), got)
  {
    var n := ChunkCount(size);
    var p := ParityCount(n);
    var len := if first >= n then 0 else if n - first < p then n - first else p;
    SpreadRecoverable(n, p, got, first, len);
  }

  /** Up to five sixths of the numbers, any fifth of the chunks may be lost in a row. */
  lemma FifthRecoverable(size: nat, got: seq<nat>, first: nat)
    requires 0 < size <= 0xFFFF * MAX_UDP_PAYLOAD
    requires var n := ChunkCount(size);
      && 6 * n <= 5 * 0xFFFF - 5
      && forall g: nat | g < n + ParityCount(n) && !(first <= g < first + n / 5 && g < n) :: g in got
    ensures var n := ChunkCount(size); Recoverable(n, ParityCount(n), got)
  {
    var n := ChunkCount(size);
    ParityIsAFifth(n);
    var len := if first >= n then 0 else if n - first < n / 5 then n - first else n / 5;
    SpreadRecoverable(n, ParityCount(n), got, first, len);
  }

  /** Three consecutive packets, the last chunk and two of three parity chunks, lose a frame of eleven chunks. */
  lemma BurstLost()
    ensures ChunkCount(11 * MAX_UDP_PAYLOAD) == 11 && ParityCount(11) == 3
    ensures !Recoverable(11, 3, [0, 1, 2, 3, 4, 5, 6, 7, 8, 9, 13])
  {
    assert !Available(11, 3, [0, 1, 2, 3, 4, 5, 6, 7, 8, 9, 13], 10);
  }

  /** Losing two chunks of a class loses the frame, whatever parity arrives. */
  lemma TwoLostIsLost(size: nat, got: seq<nat>, a: nat, b: nat)
    requires var n := ChunkCount(size); var p := ParityCount(n);
      a < b < n && p > 0 && a % p == b % p && a !in got && b !in got
    ensures var n := ChunkCount(size); !Recoverable(n, ParityCount(n), got)
  {
    assert !Available(ChunkCount(size), ParityCount(ChunkCount(size)), got, a);
  }
}
