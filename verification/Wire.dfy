/** Little-endian integers and the packed headers of protocol.h. */
module Wire {
  import opened Bits

  function Le16(v: nat): (s: seq<byte>)
    requires v < 0x1_0000
    ensures |s| == 2
  {
    [v % 0x100, v / 0x100]
  }

  function Le32(v: nat): (s: seq<byte>)
    requires v < 0x1_0000_0000
    ensures |s| == 4
  {
    Le16(v % 0x1_0000) + Le16(v / 0x1_0000)
  }

  function Get16(s: seq<byte>, at: nat): (v: nat)
    requires at + 2 <= |s|
    ensures v < 0x1_0000
  {
    s[at] as nat + 0x100 * s[at + 1] as nat
  }

  function Get32(s: seq<byte>, at: nat): (v: nat)
    requires at + 4 <= |s|
    ensures v < 0x1_0000_0000
  {
    Get16(s, at) + 0x1_0000 * Get16(s, at + 2)
  }

  lemma Get16Le16(v: nat, s: seq<byte>, at: nat)
    requires v < 0x1_0000 && at + 2 <= |s| && s[at..at + 2] == Le16(v)
    ensures Get16(s, at) == v
  {
    assert s[at] == Le16(v)[0] && s[at + 1] == Le16(v)[1];
  }

  lemma Get32Le32(v: nat, s: seq<byte>, at: nat)
    requires v < 0x1_0000_0000 && at + 4 <= |s| && s[at..at + 4] == Le32(v)
    ensures Get32(s, at) == v
  {
    assert s[at..at + 2] == Le32(v)[..2] == Le16(v % 0x1_0000);
    assert s[at + 2..at + 4] == Le32(v)[2..] == Le16(v / 0x1_0000);
    Get16Le16(v % 0x1_0000, s, at);
    Get16Le16(v / 0x1_0000, s, at + 2);
  }

  const VIDEO_HEADER_SIZE: nat := 9
  const PARITY_HEADER_SIZE: nat := 6

  /** VideoPacketHeader: monitor, frame number, chunk index, chunk count. */
  datatype VideoHeader = VideoHeader(monitor: nat, frame: nat, index: nat, count: nat)
  {
    predicate Fits() {
      monitor < 0x100 && frame < 0x1_0000_0000 && index < 0x1_0000 && count < 0x1_0000
    }
  }

  function Packed(h: VideoHeader): (s: seq<byte>)
    requires h.Fits()
    ensures |s| == VIDEO_HEADER_SIZE
  {
    [h.monitor] + Le32(h.frame) + Le16(h.index) + Le16(h.count)
  }

  function Unpacked(s: seq<byte>): VideoHeader
    requires |s| >= VIDEO_HEADER_SIZE
  {
    VideoHeader(s[0], Get32(s, 1), Get16(s, 5), Get16(s, 7))
  }

  lemma HeaderRoundTrip(h: VideoHeader, payload: seq<byte>)
    requires h.Fits()
    ensures Unpacked(Packed(h) + payload) == h && (Packed(h) + payload)[VIDEO_HEADER_SIZE..] == payload
  {
    var s := Packed(h) + payload;
    assert s[1..5] == Le32(h.frame) && s[5..7] == Le16(h.index) && s[7..9] == Le16(h.count);
    Get32Le32(h.frame, s, 1);
    Get16Le16(h.index, s, 5);
    Get16Le16(h.count, s, 7);
  }

  /** VideoParityHeader: the frame's size and its number of parity chunks. */
  lemma ParityRoundTrip(size: nat, parityCount: nat, xor: seq<byte>)
    requires size < 0x1_0000_0000 && parityCount < 0x1_0000
    ensures var s := Le32(size) + Le16(parityCount) + xor;
      Get32(s, 0) == size && Get16(s, 4) == parityCount && s[PARITY_HEADER_SIZE..] == xor
  {
    var s := Le32(size) + Le16(parityCount) + xor;
    assert s[0..4] == Le32(size) && s[4..6] == Le16(parityCount);
    Get32Le32(size, s, 0);
    Get16Le16(parityCount, s, 4);
  }

  // ----- the bytes on the wire -----

  lemma LittleEndian16(v: nat)
    requires v < 0x1_0000
    ensures ByteBits(Le16(v)) == LowBits(v, 16)
  {
    LowByteSplit(v, 8);
    assert Le16(v) == [v % 0x100] + [v / 0x100];
    ByteBitsPush([v % 0x100], v / 0x100);
    assert [] + [v % 0x100] == [v % 0x100] && ByteBits([]) == [];
    ByteBitsPush([], v % 0x100);
  }

  lemma LittleEndian32(v: nat)
    requires v < 0x1_0000_0000
    ensures ByteBits(Le32(v)) == LowBits(v, 32)
  {
    var low, high := v % 0x1_0000, v / 0x1_0000;
    LittleEndian16(low);
    LittleEndian16(high);
    ByteBitsAppend(Le16(low), Le16(high));
    BytePowers();
    hide *;
    assert v == low + high * 0x1_0000;
    LowBitsAppend(low, 16, high, 16);
  }

  /** The packed struct: 8, 32, 16 and 16 bits, the low byte of each field first. */
  lemma HeaderBits(h: VideoHeader)
    requires h.Fits()
    ensures ByteBits(Packed(h)) ==
      LowBits(h.monitor, 8) + LowBits(h.frame, 32) + LowBits(h.index, 16) + LowBits(h.count, 16)
  {
    LittleEndian32(h.frame);
    LittleEndian16(h.index);
    LittleEndian16(h.count);
    var m: seq<byte> := [h.monitor];
    assert [] + m == m && ByteBits([]) == [];
    ByteBitsPush([], h.monitor);
    ByteBitsAppend(m, Le32(h.frame));
    ByteBitsAppend(m + Le32(h.frame), Le16(h.index));
    ByteBitsAppend(m + Le32(h.frame) + Le16(h.index), Le16(h.count));
  }
}
