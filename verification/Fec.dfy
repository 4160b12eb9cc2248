/** UDP video: a frame's chunks and XOR parity, as the host sends them and a client rebuilds them. */
module Fec {
  import opened Bits
  import opened Wire

  const MAX_UDP_PAYLOAD: nat := 1400
  const FEC_PERCENT: nat := 20

  // ----- residue classes -----

  lemma ModNext(i: nat, p: nat)
    requires p > 0
    ensures (i + p) % p == i % p
  {
    Quotient(i, p);
    Unique(i + p, p, i / p + 1, i % p);
  }

  /** Between `i` and `i + p` no number has the residue of `i`. */
  lemma ClassGap(i: nat, k: nat, p: nat)
    requires p > 0 && i < k < i + p
    ensures k % p != i % p
  {
    Quotient(i, p);
    var q, r := i / p, i % p + (k - i);
    if r < p {
      Unique(k, p, q, r);
    } else {
      Times(q, q, p);
      Unique(k, p, q + 1, r - p);
    }
  }

  // ----- exclusive or -----

  lemma {:induction false} XorCommutes(a: nat, b: nat)
    ensures Xor(a, b) == Xor(b, a)
    decreases a + b
  {
    if a > 0 && b > 0 { XorCommutes(a / 2, b / 2); }
  }

  lemma {:induction false} XorSelf(a: nat)
    ensures Xor(a, a) == 0
  {
    if a > 0 { XorSelf(a / 2); }
  }

  lemma {:induction false} XorAssociates(a: nat, b: nat, c: nat)
    ensures Xor(Xor(a, b), c) == Xor(a, Xor(b, c))
    decreases a + b + c
  {
    if a > 0 && b > 0 && c > 0 {
      XorAssociates(a / 2, b / 2, c / 2);
      XorHalf(a, b);
      XorHalf(b, c);
      XorHalf(Xor(a, b), c);
      XorHalf(a, Xor(b, c));
      BitsDecide(Xor(Xor(a, b), c), Xor(a, Xor(b, c)));
    }
  }

  lemma BitsDecide(x: nat, y: nat)
    requires x / 2 == y / 2 && x % 2 == y % 2
    ensures x == y
  {
  }

  lemma {:induction false} XorBelow(a: nat, b: nat, n: nat)
    requires a < Pow2(n) && b < Pow2(n)
    ensures Xor(a, b) < Pow2(n)
  {
    if n > 0 && a > 0 && b > 0 { XorBelow(a / 2, b / 2, n - 1); }
  }

  function XorByte(a: byte, b: byte): byte
  {
    assert Pow2(8) == 256;
    XorBelow(a, b, 8);
    Xor(a, b)
  }

  // ----- what the host sends -----

  /** compute_chunk_count, with its 32-bit sum and 16-bit result. */
  function ChunkCount(size: nat): (n: nat)
    ensures n < 0x1_0000
  {
    (size + MAX_UDP_PAYLOAD - 1) % 0x1_0000_0000 / MAX_UDP_PAYLOAD % 0x1_0000
  }

  /** The 32-bit sum wraps at the very largest sizes: one byte more, and the frame has no chunk at all. */
  lemma SumWraps()
    ensures ChunkCount(0xFFFF_FA88) == 53177 && ChunkCount(0xFFFF_FA89) == 0
  {
  }

  function ParityCount(chunkCount: nat): (p: nat)
    requires chunkCount < 0x1_0000
    ensures chunkCount + p < 0x1_0000 && (p > 0 <==> 0 < chunkCount < 0xFFFF)
  {
    if chunkCount == 0 then 0 else
      var share := (chunkCount * FEC_PERCENT + 99) / 100;
      var wanted := if share < 1 then 1 else share;
      if wanted < 0xFFFF - chunkCount then wanted else 0xFFFF - chunkCount
  }

  /** One parity chunk for every five chunks or part of five; beyond five sixths of the numbers, what is left. */
  lemma ParityIsAFifth(n: nat)
    requires n < 0x1_0000
    ensures 6 * n <= 5 * 0xFFFF - 5 ==> n <= 5 * ParityCount(n) < n + 5
    ensures 6 * n > 5 * 0xFFFF - 5 ==> ParityCount(n) == 0xFFFF - n
  {
  }

  /** The chunks cover the whole frame exactly when the count fits its 16 bits. */
  lemma ChunksCover(size: nat)
    requires size < 0x1_0000_0000
    ensures 1400 * ChunkCount(size) >= size <==> size <= 0xFFFF * 1400
    ensures 0 < size <= 0xFFFF * 1400 ==> 1400 * (ChunkCount(size) - 1) < size
  {
  }

  /** Byte `b` of chunk `i`, zero past the end of the frame. */
  function At(data: seq<byte>, i: nat, b: nat): byte
  {
    if MAX_UDP_PAYLOAD * i + b < |data| then data[MAX_UDP_PAYLOAD * i + b] else 0
  }

  function Chunk(data: seq<byte>, i: nat): (c: seq<byte>)
    requires MAX_UDP_PAYLOAD * i <= |data|
    ensures |c| <= MAX_UDP_PAYLOAD && forall b | 0 <= b < |c| :: c[b] == At(data, i, b)
  {
    var from := MAX_UDP_PAYLOAD * i;
    data[from..if from + MAX_UDP_PAYLOAD < |data| then from + MAX_UDP_PAYLOAD else |data|]
  }

  /** The exclusive or of byte `b` of the chunks below `n` that are `j` modulo `p`, leaving out chunk `skip`. */
  function XorOf(data: seq<byte>, n: nat, p: nat, j: nat, b: nat, skip: int): byte
    requires p > 0
  {
    if n == 0 then 0
    else if (n - 1) % p == j && n - 1 != skip then XorByte(XorOf(data, n - 1, p, j, b, skip), At(data, n - 1, b))
    else XorOf(data, n - 1, p, j, b, skip)
  }

  /** The exclusive or of byte `b` of the chunks `i`, `i + p`, `i + 2p` and so on below `n`. */
  function XorEvery(data: seq<byte>, n: nat, p: nat, i: nat, b: nat): byte
    requires p > 0
    decreases n - i
  {
    if i >= n then 0 else XorByte(At(data, i, b), XorEvery(data, n, p, i + p, b))
  }

  lemma {:induction false} XorEveryGrows(data: seq<byte>, n: nat, p: nat, i: nat, b: nat)
    requires p > 0
    ensures XorEvery(data, n + 1, p, i, b) ==
      if i <= n && i % p == n % p then XorByte(XorEvery(data, n, p, i, b), At(data, n, b))
      else XorEvery(data, n, p, i, b)
    decreases n + 1 - i
  {
    hide At;
    if i < n {
      ModNext(i, p);
      if i + p > n { ClassGap(i, n, p); }
      XorEveryGrows(data, n, p, i + p, b);
      XorAssociates(At(data, i, b), XorEvery(data, n, p, i + p, b), At(data, n, b));
    } else if i == n {
      XorZero();
      XorCommutes(At(data, i, b), 0);
    }
  }

  /** Parity `j` covers the chunks `j`, `j + p`, `j + 2p` and so on. */
  lemma {:induction false} ParityCovers(data: seq<byte>, n: nat, p: nat, j: nat, b: nat)
    requires j < p
    ensures XorOf(data, n, p, j, b, -1) == XorEvery(data, n, p, j, b)
  {
    hide At, XorByte, XorEvery;
    if n == 0 {
      NoneLeft(data, p, j, b);
    } else {
      ParityCovers(data, n - 1, p, j, b);
      XorEveryGrows(data, n - 1, p, j, b);
      SmallMod(j, p);
      RemainderAtMost(n - 1, p);
    }
  }

  lemma NoneLeft(data: seq<byte>, p: nat, j: nat, b: nat)
    requires p > 0
    ensures XorEvery(data, 0, p, j, b) == 0
  {
  }

  lemma RemainderAtMost(i: nat, p: nat)
    requires p > 0
    ensures i % p <= i
  {
    if i < p { SmallMod(i, p); }
  }

  /** The length of every parity chunk: that of the first chunk. */
  function ParityLen(size: nat): nat
  {
    if size < MAX_UDP_PAYLOAD then size else MAX_UDP_PAYLOAD
  }

  function ParityChunk(data: seq<byte>, j: nat): (c: seq<byte>)
    requires ParityCount(ChunkCount(|data|)) > 0
    ensures |c| == ParityLen(|data|)
  {
    var n := ChunkCount(|data|);
    seq(ParityLen(|data|), b requires 0 <= b => XorOf(data, n, ParityCount(n), j, b, -1))
  }

  /** Every parity chunk is as long as the first data chunk. */
  lemma ParityLength(data: seq<byte>, j: nat)
    requires ParityCount(ChunkCount(|data|)) > 0
    ensures |ParityChunk(data, j)| == |Chunk(data, 0)|
  {
  }

  predicate Sendable(monitor: nat, frame: nat, data: seq<byte>)
  {
    monitor < 0x100 && frame < 0x1_0000_0000 && |data| < 0x1_0000_0000
  }

  function DataPacket(monitor: nat, frame: nat, data: seq<byte>, i: nat): seq<byte>
    requires Sendable(monitor, frame, data) && i < ChunkCount(|data|) && MAX_UDP_PAYLOAD * i <= |data|
  {
    Packed(VideoHeader(monitor, frame, i, ChunkCount(|data|))) + Chunk(data, i)
  }

  function ParityPacket(monitor: nat, frame: nat, data: seq<byte>, j: nat): seq<byte>
    requires Sendable(monitor, frame, data) && j < ParityCount(ChunkCount(|data|))
  {
    var n := ChunkCount(|data|);
    Packed(VideoHeader(monitor, frame, n + j, n)) + (Le32(|data|) + Le16(ParityCount(n)) + ParityChunk(data, j))
  }

  lemma ChunkStart(size: nat, i: nat)
    requires size < 0x1_0000_0000 && i < ChunkCount(size)
    ensures MAX_UDP_PAYLOAD * i < size
  {
  }

  /** Every packet of a frame, in the order sent. */
  ghost function Packets(monitor: nat, frame: nat, data: seq<byte>): (r: seq<seq<byte>>)
    requires Sendable(monitor, frame, data)
  {
    var n := ChunkCount(|data|);
    seq(n, i requires 0 <= i < n => ChunkStart(|data|, i); DataPacket(monitor, frame, data, i)) +
    seq(ParityCount(n), j requires 0 <= j < ParityCount(n) => ParityPacket(monitor, frame, data, j))
  }

  lemma NextPacket(monitor: nat, frame: nat, data: seq<byte>, k: nat)
    requires Sendable(monitor, frame, data)
    ensures var n := ChunkCount(|data|);
      && |Packets(monitor, frame, data)| == n + ParityCount(n)
      && (k < n ==> MAX_UDP_PAYLOAD * k < |data| &&
                    Packets(monitor, frame, data)[..k + 1] ==
                    Packets(monitor, frame, data)[..k] + [DataPacket(monitor, frame, data, k)])
      && (n <= k < n + ParityCount(n) ==>
            Packets(monitor, frame, data)[..k + 1] ==
            Packets(monitor, frame, data)[..k] + [ParityPacket(monitor, frame, data, k - n)])
  {
    hide DataPacket, ParityPacket;
    if k < ChunkCount(|data|) { ChunkStart(|data|, k); }
  }

  /** The UDP half of `send_video_packet`: the data chunks, the parity built while they go out, the parity chunks. */
  method SendVideo(monitor: nat, frame: nat, data: seq<byte>) returns (sent: seq<seq<byte>>)
    requires Sendable(monitor, frame, data)
    ensures sent == Packets(monitor, frame, data)
  {
    hide Packets, ChunkCount, ParityCount, Packed, Le32, Le16, Chunk, At;
    var chunkCount := ChunkCount(|data|);
    var parityCount := ParityCount(chunkCount);
    var parityLen := ParityLen(|data|);
    var parity := new byte[parityCount, parityLen]((_, _) => 0);
    sent := [];
    NextPacket(monitor, frame, data, 0);
    for i := 0 to chunkCount
      invariant sent == Packets(monitor, frame, data)[..i]
      invariant forall j, b | 0 <= j < parityCount && 0 <= b < parityLen ::
                  parity[j, b] == XorOf(data, i, parityCount, j, b, -1)
    {
      NextPacket(monitor, frame, data, i);
      var chunk := Chunk(data, i);
      ChunkFits(data, i);
      sent := sent + [Packed(VideoHeader(monitor, frame, i, chunkCount)) + chunk];
      if parityCount != 0 {
        XorChunk(parity, i % parityCount, chunk, data, i);
      }
    }
    for j := 0 to parityCount
      invariant sent == Packets(monitor, frame, data)[..chunkCount + j]
      invariant forall j, b | 0 <= j < parityCount && 0 <= b < parityLen ::
                  parity[j, b] == XorOf(data, chunkCount, parityCount, j, b, -1)
    {
      NextPacket(monitor, frame, data, chunkCount + j);
      var row := Row(parity, j);
      assert row == ParityChunk(data, j);
      sent := sent + [Packed(VideoHeader(monitor, frame, chunkCount + j, chunkCount)) +
                      (Le32(|data|) + Le16(parityCount) + row)];
    }
  }

  lemma ChunkFits(data: seq<byte>, i: nat)
    requires MAX_UDP_PAYLOAD * i <= |data|
    ensures |Chunk(data, i)| <= ParityLen(|data|)
  {
  }

  method Row(a: array2<byte>, j: nat) returns (row: seq<byte>)
    requires j < a.Length0
    ensures |row| == a.Length1 && forall b | 0 <= b < a.Length1 :: row[b] == a[j, b]
  {
    row := [];
    for b := 0 to a.Length1
      invariant |row| == b && forall k | 0 <= k < b :: row[k] == a[j, k]
    {
      row := row + [a[j, b]];
    }
  }

  /** Xors chunk `i` into its parity row. */
  method XorChunk(parity: array2<byte>, row: nat, chunk: seq<byte>, ghost data: seq<byte>, ghost i: nat)
    requires row < parity.Length0 && |chunk| <= parity.Length1 == ParityLen(|data|)
    requires MAX_UDP_PAYLOAD * i <= |data| && chunk == Chunk(data, i)
    modifies parity
    ensures forall j, b | 0 <= j < parity.Length0 && 0 <= b < parity.Length1 ::
              parity[j, b] == if j == row then XorByte(old(parity[j, b]), At(data, i, b)) else old(parity[j, b])
  {
    for b := 0 to |chunk|
      invariant forall j, k | 0 <= j < parity.Length0 && 0 <= k < parity.Length1 ::
                  parity[j, k] == if j == row && k < b then XorByte(old(parity[j, k]), chunk[k]) else old(parity[j, k])
    {
      parity[row, b] := XorByte(parity[row, b], chunk[b]);
    }
    XorZero();
  }

  lemma XorZero()
    ensures forall x: byte :: XorByte(x, 0) == x
  {
  }

  // ----- what a receiver reads -----

  /** A packet of the frame that reached a receiver. */
  datatype Arrival = DataOf(i: nat) | ParityOf(j: nat)

  ghost predicate IsPacket(packet: seq<byte>, m: nat, f: nat, data: seq<byte>, a: Arrival)
    requires Sendable(m, f, data)
  {
    var n := ChunkCount(|data|);
    match a
    case DataOf(i) => i < n && MAX_UDP_PAYLOAD * i <= |data| && packet == DataPacket(m, f, data, i)
    case ParityOf(j) => j < ParityCount(n) && packet == ParityPacket(m, f, data, j)
  }

  lemma ReadsPacket(packet: seq<byte>, m: nat, f: nat, data: seq<byte>, a: Arrival)
    requires Sendable(m, f, data) && IsPacket(packet, m, f, data, a)
    ensures |packet| >= VIDEO_HEADER_SIZE
    ensures var h, n, payload := Unpacked(packet), ChunkCount(|data|), packet[VIDEO_HEADER_SIZE..];
      && h.monitor == m && h.frame == f && h.count == n > 0
      && (a.DataOf? ==> h.index == a.i < n && MAX_UDP_PAYLOAD * a.i <= |data| && payload == Chunk(data, a.i))
      && (a.ParityOf? ==>
            && h.index == n + a.j && a.j < ParityCount(n) && |payload| >= PARITY_HEADER_SIZE
            && Get32(payload, 0) == |data| && Get16(payload, 4) == ParityCount(n)
            && payload[PARITY_HEADER_SIZE..] == ParityChunk(data, a.j))
  {
    var n := ChunkCount(|data|);
    match a
    case DataOf(i) => HeaderRoundTrip(VideoHeader(m, f, i, n), Chunk(data, i));
    case ParityOf(j) =>
      HeaderRoundTrip(VideoHeader(m, f, n + j, n), Le32(|data|) + Le16(ParityCount(n)) + ParityChunk(data, j));
      ParityRoundTrip(|data|, ParityCount(n), ParityChunk(data, j));
  }

  /** The first `k` chunks are the start of the frame. */
  lemma ChunksJoin(data: seq<byte>, k: nat, joined: seq<byte>)
    requires MAX_UDP_PAYLOAD * k < |data| && joined == data[..MAX_UDP_PAYLOAD * k]
    ensures joined + Chunk(data, k) ==
            data[..if MAX_UDP_PAYLOAD * (k + 1) < |data| then MAX_UDP_PAYLOAD * (k + 1) else |data|]
  {
  }
}
