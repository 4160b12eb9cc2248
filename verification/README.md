# What the host, its encoders and its receivers guarantee

Immersive streams a PC's monitors to headsets and browsers. This project models the parts of it where a small slip
is invisible in a test and expensive on a headset, and proves them for every input and every run:

* **Encoders** (`stb_image_write.h`): DEFLATE with its bit buffer, hash chains and lazy matching, the deferred
  Adler-32, the JPEG entropy coder, the PNG filters, the TGA and Radiance run-length writers. Each is proved against
  a decoder written as a function from the standard: RFC 1950, RFC 1951, ITU-T T.81, the PNG specification,
  the TGA and Radiance formats.
* **Video over UDP** (`server.cpp`, `protocol.h`, the client's and the bridge's receivers): chunks and XOR parity,
  exactly which losses a client survives, reassembly of many frames at once.
* **Flow and rate control** (`server.cpp`): the ring of send times against the full history, the TCP queue, what the
  ACKs count as lost, the bitrate.
* **The host** (`main.cpp`): ownership of streams and their workers, injected input, the screen-off lease, as one state
  machine over the same events; the capture and pacing loop.
* **Parsers**: the bridge's TCP and WebSocket framing, the Annex-B and AV1 parameter-set safety net of the encoder.

Objects whose methods update fields are classes here too. Their methods are proved to take the step of a function on
values, or to keep an invariant tying the fields to a ghost record of everything that happened; the laws are proved of
that function or record.

`dafny verify dfyconfig.toml` checks everything.

## Files

| files | what |
|---|---|
| `Bits`, `Wire` | bytes as bits in both orders, little-endian integers, the packed video headers |
| `Adler`, `Inflate`, `Zlib` | the zlib compressor and the inflater it is proved against |
| `JpegDecoder`, `JpegListing`, `JpegEncoder`, `JpegCodes`, `JpegTables` | the JPEG entropy coder, its decoder, the writer's Huffman tables and their listing in the header |
| `PngFilter`, `Png`, `Tga`, `Hdr` | the other image writers |
| `Fec`, `FecReceiver`, `Bridge` | UDP video: sending, the client's rebuilding, the bridge's reassembly |
| `ControlFraming`, `WebSocketFraming` | the bridge's two stream parsers |
| `Flow`, `RateControl`, `Pacing` | flow control, bitrate, the worker's loop |
| `AnnexB`, `ParameterSets`, `Av1` | parameter sets on every keyframe |
| `Streams`, `HeldInput`, `ScreenLease`, `Host`, `HostService` | the host's state machine and the class that runs it |

## Where the code does less than its comments say

* The zlib writer emits no block at all for empty input (`host/include/encoder/stb_image_write.h:985-999`); no inflater
  accepts that. `Zlib.Compress` holds exactly for non-empty input.
* A frame of more than 65535 chunks wraps the 16-bit chunk count (`protocol/protocol.h:331-334`); what arrives is a
  prefix of it. `Fec.ChunksCover` and `Bridge.CarriedIsAll` give the exact limit. At 65535 chunks there is no parity
  at all, although the protocol says at least one chunk per frame.
* The 150 ms limit on the TCP queue (`host/src/network/server.cpp:378-405`) reads the send time of the oldest waiting
  frame from a ring of 128. `Flow.FlowState.SendVideoPacket` says exactly when a frame is written and exactly when
  writing it keeps the limit: below a distance of 128 always, from there on only if the oldest frame has not waited
  longer; `Flow.AgeRead` says which frame's time is read, and `Flow.SentLate` breaks the limit. Frames written before
  the stream's first ACK, except the last of them, are never waited for.
* Parity does not save "any burst of up to `parity_count`" packets (`protocol/protocol.h:309-311`): one that runs from
  the last data chunks into the parity chunks may take a chunk and its parity. `FecReceiver.BurstExactly` is the exact
  condition for bursts of any length, `FecReceiver.BurstLost` such a loss of three packets.
* After a WebSocket close the bridge goes on parsing when another chunk comes (`web/bridge/bridge.js:730-733`);
  what it dispatches is independent of the cut exactly when no whole frame stands behind the first close:
  `WebSocketFraming.CutsDoNotMatterIff`, and `WebSocketFraming.AfterClose` for the two cuts.
* A keyframe request met before the pacing interval is over counts the still frame as new
  (`host/src/main.cpp:891-933`), so up to 30 more refinements follow. `Pacing.MarkedUnsentIffTooEarly` is the exact
  condition, `Pacing.RequestRestartsRefinement` what follows.
* A frame whose packets come more than five seconds apart is lost only if another frame completes in between
  (`web/bridge/bridge.js:555-563`): `Bridge.ShownExactly` says when a frame is shown in any run.
* When the driving client renews a screen-off lease that is still another's, the old owner is not told
  (`host/src/main.cpp:1166-1172`): `ScreenLease.MisledIffTaken`, over runs `Host.MisledInRunIffTaken`, and `Host.LeaseTaken`
  a run of four events.
* A keyframe with some parameter sets but not all replaces all that were kept
  (`host/src/encoder/ffmpeg_encoder.cpp:396-408`): `ParameterSets.KeyframesCarryTypes` says exactly which types a
  keyframe is sent with, `ParameterSets.SpsForgotten` is a sequence that loses the SPS.
* The AV1 header goes behind the second byte of a temporal delimiter whatever its length
  (`host/src/encoder/ffmpeg_encoder.cpp:390-392`). An empty one without extension has two bytes; for any
  other `Av1.Inserts` is the exact condition and `Av1.DelimiterCut` an input.
* `split_annexb` takes a zero that ends a NAL unit for part of a 3-byte start code behind it; `AnnexB.SplitJoined` is the
  exact condition. H.264 forbids such units.

## Model

| member | source | states |
|---|---|---|
| `Zlib.Compress` | host/include/encoder/stb_image_write.h:895-1022 | for every input and quality, inflating the stream gives the input back, except that nothing inflates to the empty input; the stream is at most data_len + 6 + 5*ceil(data_len/32767) bytes |
| `Zlib.CompressFixed` | host/include/encoder/stb_image_write.h:905-977 | the two header bytes, then a fixed-Huffman block that inflates to the input before any trailer |
| `Zlib.EmitTokens` | host/include/encoder/stb_image_write.h:921-974 | the bits of the match loop and of the final literals turn an empty output into the whole input |
| `Zlib.EmitToken` | host/include/encoder/stb_image_write.h:922-971 | one turn of the loop advances and appends bits that mean exactly the bytes it passed, whether it took a match or a literal |
| `Zlib.ChooseMatch` | host/include/encoder/stb_image_write.h:923-955 | a longest match of the chain that no match at the next byte beats; a literal exactly when each match here is beaten there |
| `Zlib.LongestMatch` | host/include/encoder/stb_image_write.h:926-933 | among the places listed, a longest agreement of at least three bytes, and none only when there is none |
| `Zlib.NextIsLonger` | host/include/encoder/stb_image_write.h:942-954 | true exactly when some place within the window agrees with the next byte for longer |
| `Zlib.CountMatch` | host/include/encoder/stb_image_write.h:859-865 | the length of the common prefix, at most 258 and at most the limit |
| `Zlib.CopyRebuilds` | host/include/encoder/stb_image_write.h:957-966 | copying from a distance, overlapping or not, rebuilds the bytes a match covers |
| `Zlib.EnterKeepsOrder` | host/include/encoder/stb_image_write.h:934-939 | entering a position and halving a full hash chain keeps only earlier positions in it |
| `Zlib.MatchMeans` | host/include/encoder/stb_image_write.h:957-966 | length and distance symbols with their extra bits make an inflater copy that length from that distance |
| `Zlib.LiteralMeans` | host/include/encoder/stb_image_write.h:883-889 | the code of a literal makes an inflater append that byte |
| `Zlib.LengthTable` | host/include/encoder/stb_image_write.h:901-902 | the length tables are those of RFC 1951 section 3.2.5 |
| `Zlib.DistanceTable` | host/include/encoder/stb_image_write.h:903-904 | the distance tables are those of RFC 1951 section 3.2.5 |
| `Zlib.LengthCode` | host/include/encoder/stb_image_write.h:960 | the length symbol whose range holds the length |
| `Zlib.DistanceCode` | host/include/encoder/stb_image_write.h:963 | the distance symbol whose range holds the distance |
| `Zlib.BitReverse` | host/include/encoder/stb_image_write.h:849-857 | the bits of the code in the other order |
| `Zlib.BitWriter.Flush` | host/include/encoder/stb_image_write.h:839-847 | whole bytes leave the bit buffer; the bits written are unchanged and fewer than eight stay pending |
| `Zlib.BitWriter.Add` | host/include/encoder/stb_image_write.h:880-882 | appends exactly the given bits, low one first, without losing any in 32 bits |
| `Zlib.BitWriter.Symbol` | host/include/encoder/stb_image_write.h:883-888 | appends the fixed Huffman code of the symbol, high bit first |
| `Zlib.PadToByte` | host/include/encoder/stb_image_write.h:976-978 | zero bits up to the byte boundary |
| `Zlib.StoreBlocks` | host/include/encoder/stb_image_write.h:985-999 | the header bytes and stored blocks of at most 32767 bytes |
| `Zlib.StoredInflates` | host/include/encoder/stb_image_write.h:987-998 | the stored blocks of any non-empty input inflate to it |
| `Zlib.EmptyFails` | host/include/encoder/stb_image_write.h:985-999 | for empty input the fallback leaves no block at all, which no inflater accepts |
| `Inflate.SymbolRoundTrip` | host/include/encoder/stb_image_write.h:883-888 | reading the fixed code of a literal or length symbol, whatever follows, gives the symbol and what follows |
| `Adler.Checksum` | host/include/encoder/stb_image_write.h:1001-1016 | summing with the modulo once per block gives the per-byte sums of RFC 1950 section 8.2, even when the first block is empty |
| `Adler.AddBlock` | host/include/encoder/stb_image_write.h:1007-1009 | over one block of at most 5552 bytes no 32-bit sum wraps, and the reduced sums are the per-byte ones |
| `Adler.TriBound` | host/include/encoder/stb_image_write.h:1004-1010 | the largest sum a block can reach stays below 2^32 |
| `JpegEncoder.EncodeScan` | host/include/encoder/stb_image_write.h:1522-1603 | for any blocks in range and any usable tables, destuffing and decoding the scan gives the same blocks; no FF is followed by anything but 00 before the end marker |
| `JpegEncoder.EncodeBlocks` | host/include/encoder/stb_image_write.h:1532-1594 | the blocks in turn, each component predicting from its own last DC value |
| `JpegEncoder.ProcessDU` | host/include/encoder/stb_image_write.h:1355-1395 | the bits of one block make a decoder with the same prediction read that block; the new prediction is its DC value |
| `JpegEncoder.EncodeDc` | host/include/encoder/stb_image_write.h:1356-1364 | the DC difference is what a decoder reads |
| `JpegEncoder.EncodeAc` | host/include/encoder/stb_image_write.h:1366-1394 | runs, 16-zero markers, values and the end of block make a decoder read the 63 coefficients |
| `JpegEncoder.EncodeZrls` | host/include/encoder/stb_image_write.h:1381-1387 | as many 16-zero markers as whole sixteens in the run |
| `JpegEncoder.LastNonZero` | host/include/encoder/stb_image_write.h:1366-1368 | the last non-zero coefficient, 0 when all are zero |
| `JpegEncoder.SkipZeros` | host/include/encoder/stb_image_write.h:1378-1380 | the next non-zero coefficient; everything before it is zero |
| `JpegEncoder.CalcBits` | host/include/encoder/stb_image_write.h:1318-1326 | the size category of a value and its bits in it |
| `JpegEncoder.MagnitudeBits` | host/include/encoder/stb_image_write.h:1318-1326 | EXTEND of ITU-T T.81 figure F.12 undoes the bits of a value |
| `JpegEncoder.BitWriter.WriteBits` | host/include/encoder/stb_image_write.h:1253-1268 | appends exactly the given bits, high one first; fewer than eight stay pending and the bytes stay stuffed |
| `JpegEncoder.BitWriter.FlushByte` | host/include/encoder/stb_image_write.h:1258-1264 | one byte leaves the buffer, followed by a zero byte if it is FF; the bits written are unchanged |
| `JpegEncoder.StuffedMeans` | host/include/encoder/stb_image_write.h:1260-1262 | in stuffed bytes every FF is followed by 00 |
| `JpegTables.WriteScan` | host/include/encoder/stb_image_write.h:1522-1603 | for any blocks in range, destuffing the scan written with the code tables and decoding it with the tables of the listings in the header gives the same blocks |
| `JpegTables.HeaderGivesTables` | host/include/encoder/stb_image_write.h:1400-1462 | the listings in the header give exactly the code tables the writer uses, and these are prefix codes on every symbol a scan can need |
| `JpegTables.HeaderParses` | host/include/encoder/stb_image_write.h:1500-1518 | the table segment has the length its header states, and a decoder reads the four listings from it |
| `JpegTables.ScanHeaderSelects` | host/include/encoder/stb_image_write.h:1500 | the scan header gives each component the tables it is coded with |
| `JpegListing.ListedIsPrefixCode` | host/include/encoder/stb_image_write.h:1400-1423 | whatever is listed, as long as the counts fit their lengths, the codes annex C of ITU-T T.81 gives are of 1 to 16 bits and none begins with another |
| `JpegListing.CodesAscend` | host/include/encoder/stb_image_write.h:1400-1423 | the 16-bit strings that begin with an earlier code of a listing lie below those of a later one |
| `JpegListing.ListingGives` | host/include/encoder/stb_image_write.h:1400-1462 | a listing of as many codes as a table has symbols, each the table's code for its symbol, gives that table and lists every symbol |
| `JpegListing.ParsesPrinted` | host/include/encoder/stb_image_write.h:1506-1518 | reading a segment of any listings gives the listings |
| `JpegDecoder.SymbolRoundTrip` | host/include/encoder/stb_image_write.h:1358-1389 | with prefix-free codes, reading the code of a symbol gives that symbol and the bits behind it |
| `Png.ImageData` | host/include/encoder/stb_image_write.h:1129-1174 | inflating and un-filtering the image data gives every byte of every row, for any image, stride, flip and filter setting |
| `Png.FilterImage` | host/include/encoder/stb_image_write.h:1145-1173 | each row is filtered by the forced filter, or by the first of those with the least estimate |
| `Png.BestLine` | host/include/encoder/stb_image_write.h:1152-1169 | the line of the first filter with the least sum of signed sizes |
| `Png.EstimateOf` | host/include/encoder/stb_image_write.h:1157-1160 | the sum of the sizes of the bytes taken as signed |
| `Png.EstimateAdds` | host/include/encoder/stb_image_write.h:1157-1160 | estimates add up byte by byte |
| `Png.RowIs` | host/include/encoder/stb_image_write.h:1092-1099 | where in the caller's memory each byte of each row comes from, for any stride, 0 included, and either flip |
| `Png.LinesRoundTrip` | host/include/encoder/stb_image_write.h:1146-1173 | whatever filter each row records, reading the rows in order restores them |
| `PngFilter.EncodePngLine` | host/include/encoder/stb_image_write.h:1091-1126 | the line is the row filtered as section 9 of the PNG specification says, the first row against zeros, with either flip |
| `PngFilter.FillLine` | host/include/encoder/stb_image_write.h:1100-1125 | the loops fill the line with the filtered row, for the replaced filters of the first row too |
| `PngFilter.KindPredicts` | host/include/encoder/stb_image_write.h:1093-1125 | the replaced filters of the first row and the first-pixel cases subtract what the recorded filter predicts |
| `PngFilter.PaethIsNearest` | host/include/encoder/stb_image_write.h:1082-1089 | the Paeth predictor is the neighbour nearest to a + b - c, left before above before the corner when equally near |
| `PngFilter.FilteredIs` | host/include/encoder/stb_image_write.h:1091-1126 | the filtered line pixel by pixel and channel by channel as section 9 of the PNG specification defines the five filters, with zeros where there is no pixel |
| `PngFilter.RowRoundTrip` | host/include/encoder/stb_image_write.h:1091-1126 | un-filtering undoes filtering, byte by byte from the left, for every filter and every row above |
| `Tga.WriteRows` | host/include/encoder/stb_image_write.h:559-605 | a TGA reader gets every pixel of every row back, rows in the order of the flip setting |
| `Tga.WriteRow` | host/include/encoder/stb_image_write.h:559-604 | a reader gets the row back, whatever follows; the packets are of 1 to 128 pixels; the loop ends |
| `Tga.NextPacket` | host/include/encoder/stb_image_write.h:560-590 | a packet of 1 to 128 pixels inside the row; a run of equal pixels exactly when the next two are, as long as they are or 128 |
| `Tga.UnpacksPackets` | host/include/encoder/stb_image_write.h:592-603 | reading packets gives the pixels they stand for, and leaves what is behind |
| `Tga.SwappedTwice` | host/include/encoder/stb_image_write.h:418-449 | swapping the colours of a pixel again restores it |
| `Tga.BlueFirst` | host/include/encoder/stb_image_write.h:418-449 | colours go out as blue, green, red and then alpha, greys as they are |
| `Hdr.WriteScanline` | host/include/encoder/stb_image_write.h:671-756 | a Radiance reader gets every byte of the scanline back, packed or, below 8 and from 32768 pixels on, flat |
| `Hdr.WritePlane` | host/include/encoder/stb_image_write.h:715-754 | a reader gets the plane back, whatever follows; literals are of 1 to 128 bytes, runs of 1 to 127; the loops end |
| `Hdr.FindRun` | host/include/encoder/stb_image_write.h:718-727 | the first place from here on with three equal bytes, or the end of the plane |
| `Hdr.DumpTo` | host/include/encoder/stb_image_write.h:729-734 | literals of at most 128 bytes for the bytes before the run |
| `Hdr.RepeatTo` | host/include/encoder/stb_image_write.h:740-746 | runs of at most 127 for the bytes of the run |
| `Hdr.UnpacksCodes` | host/include/encoder/stb_image_write.h:656-669 | reading codes gives the bytes they stand for, and leaves what is behind |
| `Fec.ParityCount` | host/src/network/server.cpp:424-426 | chunk and parity numbers together fit 16 bits; there is parity exactly for 1 to 65534 chunks |
| `Fec.ParityIsAFifth` | host/src/network/server.cpp:423-425 | one parity chunk for every five chunks or part of five, and near the top of the 16 bits what is left of them |
| `Fec.ParityCovers` | host/src/network/server.cpp:420-421 | parity j is the xor of the chunks j, j + p, j + 2p and so on |
| `Fec.ParityLength` | host/src/network/server.cpp:426 | every parity chunk is as long as the first data chunk |
| `Fec.ChunksCover` | protocol/protocol.h:331-334 | the chunks cover a frame exactly when it has at most 65535 times 1400 bytes |
| `Fec.SumWraps` | protocol/protocol.h:331-334 | the 32-bit sum wraps at sizes within 1399 bytes of 4 GiB, and such a frame has no chunk |
| `Fec.SendVideo` | host/src/network/server.cpp:415-474 | the packets are the data chunks and the parity chunks, each byte of which is the xor over its class of the chunks |
| `Fec.XorChunk` | host/src/network/server.cpp:453-456 | xors one chunk into its row of the parity and leaves the other rows |
| `Fec.ReadsPacket` | protocol/protocol.h:296-316 | what a receiver reads from a data or parity packet is what the host put in |
| `Wire.HeaderRoundTrip` | protocol/protocol.h:296-304 | unpacking a video header undoes packing it |
| `Wire.HeaderBits` | protocol/protocol.h:296-304 | the packed header is 8, 32, 16 and 16 bits, low byte first |
| `Wire.ParityRoundTrip` | protocol/protocol.h:306-316 | unpacking a parity header undoes packing it |
| `FecReceiver.Reassemble` | client/project/scripts/network_client.gd:505-624 | from any packets of a frame, lost, doubled or out of order, the frame is shown exactly when every chunk is there or alone missing in its class with the parity there; it is the frame sent, short last chunk included |
| `FecReceiver.BurstExactly` | protocol/protocol.h:306-316 | a burst of any length, data and parity chunks alike, is recovered exactly when no data chunk of it shares its class with another or with a parity chunk of it |
| `FecReceiver.ShortBurst` | protocol/protocol.h:306-316 | a burst of at most as many packets as there are parity chunks is recovered exactly when it takes no chunk together with its parity |
| `FecReceiver.BurstRecoverable` | protocol/protocol.h:306-316 | a burst of as many consecutive data chunks as there are parity chunks is recovered |
| `FecReceiver.FifthRecoverable` | protocol/protocol.h:306-316 | any fifth of the chunks lost in a row is recovered, up to five sixths of the 16-bit numbers |
| `FecReceiver.BurstLost` | protocol/protocol.h:306-316 | of eleven chunks and three parity chunks, losing the last chunk and the two packets behind it loses the frame |
| `FecReceiver.TwoLostIsLost` | client/project/scripts/network_client.gd:575-582 | two chunks of a class lost and not sent again lose the frame |
| `FecReceiver.FrameEntry.OnPacket` | client/project/scripts/network_client.gd:505-565 | one packet leaves the entry with exactly the chunks that can be known from the packets so far |
| `FecReceiver.FrameEntry.RebuildChunk` | client/project/scripts/network_client.gd:571-605 | adds the one chunk missing in the class, if it is the only one and its parity is there, and it is the right one |
| `FecReceiver.FrameEntry.XorOthers` | client/project/scripts/network_client.gd:587-603 | the parity with every other chunk of its class xored out |
| `FecReceiver.XorRecovers` | protocol/protocol.h:306-316 | parity minus the others of the class is the missing chunk, padded |
| `FecReceiver.Assemble` | client/project/scripts/network_client.gd:609-619 | the chunks in order are the frame |
| `Bridge.RunKeepsInv` | web/bridge/bridge.js:475-535 | over any run of packets of many monitors and frames, every frame shown is what the host sent for that monitor and number |
| `Bridge.ShownExactly` | web/bridge/bridge.js:475-563 | in any run, whatever ages out, a frame is shown exactly when from some point where it is not begun all its chunks arrive without its being aged out |
| `Bridge.ShownIffArrived` | web/bridge/bridge.js:475-563 | a frame not begun yet and not aged out on the way, however long that takes, is shown exactly when all its chunks arrive |
| `Bridge.LeavesWhen` | web/bridge/bridge.js:519-563 | a begun frame leaves the buffer exactly when it is shown or aged out, never both |
| `Bridge.AgedOut` | web/bridge/bridge.js:555-563 | whatever completes past its five seconds drops it unshown |
| `Bridge.CarriedIsAll` | protocol/protocol.h:331-334 | what is shown is the whole frame exactly when its chunk number fits 16 bits |
| `Bridge.StepIs` | web/bridge/bridge.js:475-535 | a parity packet changes nothing; a data packet goes to its frame, which is shown once it is full |
| `Bridge.AnyPacket` | web/bridge/bridge.js:475-535 | whoever sent it: a malformed packet changes nothing; any other adds its chunk unless there, replacing an entry of another count, and a frame thereby full is shown, leaves, and takes the entries older than five seconds with it |
| `Bridge.AnyPacketCounts` | web/bridge/bridge.js:512-519 | whoever sends, an entry's count is that of the chunks it has, and below its total |
| `Bridge.Program.OnUdpPacket` | web/bridge/bridge.js:475-535 | the handler takes exactly the step the runs are made of |
| `Bridge.Program.CleanupFrameBuffer` | web/bridge/bridge.js:555-563 | drops exactly the entries older than five seconds |
| `ControlFraming.Receive` | web/bridge/bridge.js:363-385 | for every way of cutting the stream, the messages dispatched are those of the whole stream; if it was printed, the ones printed |
| `ControlFraming.ParsesPrinted` | web/bridge/bridge.js:287-301 | parsing undoes printing, whatever follows |
| `ControlFraming.ParseSplit` | web/bridge/bridge.js:363-385 | bytes still to come change nothing parsed before them |
| `ControlFraming.StopsAtOversized` | web/bridge/bridge.js:368-374 | nothing is dispatched from a payload above 1 MiB on |
| `ControlFraming.Reader.OnData` | web/bridge/bridge.js:363-385 | each data event keeps: what was dispatched is the parse of the bytes so far |
| `ControlFraming.Reader.ProcessTcpMessages` | web/bridge/bridge.js:363-385 | the loop dispatches every whole message in the buffer |
| `WebSocketFraming.Receive` | web/bridge/bridge.js:709-744 | for every way of cutting the stream, its frames up to the first close or 64-bit length are dispatched, unmasked; if it was printed, the ones printed |
| `WebSocketFraming.ParsesPrinted` | web/bridge/bridge.js:711-729 | parsing undoes the framing and masking of RFC 6455 sections 5.2 and 5.3 |
| `WebSocketFraming.ParseSplit` | web/bridge/bridge.js:711-729 | bytes still to come change no frame parsed before them |
| `WebSocketFraming.CutsDoNotMatterIff` | web/bridge/bridge.js:709-744 | every way of cutting a stream dispatches its frames exactly when no whole frame stands behind its first close |
| `WebSocketFraming.AfterClose` | web/bridge/bridge.js:730-733 | for every close and every frame behind it: one dispatched if they come in two chunks, and not if in one |
| `WebSocketFraming.Unmask` | web/bridge/bridge.js:726-728 | the unmasking loop xors the key over the data |
| `WebSocketFraming.MaskedAt` | web/bridge/bridge.js:726-728 | octet j of each group of four is xored with octet j of the key |
| `WebSocketFraming.Unmasks` | web/bridge/bridge.js:726-728 | masking twice restores the data |
| `WebSocketFraming.Socket.OnData` | web/bridge/bridge.js:709-744 | each data event keeps: up to the first close, what was dispatched is the parse of the bytes so far |
| `WebSocketFraming.Socket.Drain` | web/bridge/bridge.js:711-743 | the loop dispatches every whole frame in the buffer, up to a close or a 64-bit length |
| `Flow.RingNext` | host/src/network/server.cpp:372-374 | the ring of 128 slots keeps the send time of each of the last 128 frames |
| `Flow.RingReads` | host/src/network/server.cpp:394 | what a slot says of a frame however old: the send time of the newest frame in that slot |
| `Flow.NoneLateIff` | host/src/network/server.cpp:378-394 | no watched frame has waited over 150 ms exactly when the oldest waiting one has not, at any distance |
| `Flow.NoneWaitsLong` | host/src/network/server.cpp:388-394 | while the oldest frame waiting is within 127 of the one about to go, no watched frame has waited over 150 ms |
| `Flow.SentLate` | host/src/network/server.cpp:373-411 | the limit broken: 1001 unacknowledged, 1002 to 1128 dropped, 1129 written 997 ms after 1001 |
| `Flow.AgeRead` | host/src/network/server.cpp:373-394 | the time the age test reads at every distance: the frame's own below 128, then that of the frame a multiple of 128 later, at a multiple of 128 the one about to go |
| `Flow.QueueNext` | host/src/network/server.cpp:389-411 | the queue stays strictly increasing and has every watched frame not acknowledged |
| `Flow.AckedAccounted` | host/src/network/server.cpp:950-968 | from the first ACK to the last, every frame advanced, was counted lost or was skipped while idle; none is counted lost twice |
| `Flow.FlowState.SendVideoPacket` | host/src/network/server.cpp:363-411 | over every run the ring refines the history and the queue the frames on the wire; a frame is written exactly when none waits or the slot of the oldest is at most 150 ms old; the ACK record stays; once ACKs come, writing keeps the 150 ms limit exactly when none waits, the oldest has not waited longer, or the slot read is too old |
| `Flow.FlowState.ResetOnRestart` | host/src/network/server.cpp:364-367 | afterwards no ACK is ahead of the frame; when none was, nothing changes |
| `Flow.FlowState.QueueFrame` | host/src/network/server.cpp:389-411 | the TCP branch: pop what was acknowledged, then drop or write and queue the frame |
| `Flow.FlowState.FrameAck` | host/src/network/server.cpp:934-973 | an ACK before the first frame changes nothing; any other is accounted, and its delay is the true one while the ring has it |
| `Flow.FlowState.SendStreamStart` | host/src/network/server.cpp:326-339 | a new stream forgets history and ACKs, not the TCP queue |
| `RateControl.RaisesAddUp` | host/src/network/server.cpp:1079-1080 | n raises from s give min(1, (s + 0.2) * 1.1^n - 0.2) |
| `RateControl.CutsAddUp` | host/src/network/server.cpp:1071-1072 | n cuts from s give max(0.05, s * 0.7^n) |
| `RateControl.FloorToFull` | host/src/network/server.cpp:1079-1080 | 17 raises take the floor to exactly 1, and no fewer do |
| `RateControl.FullToFloor` | host/src/network/server.cpp:1071-1072 | 9 cuts take 1 to the floor, and no fewer do |
| `RateControl.RecoveryTakesTwentySeconds` | host/src/network/server.cpp:1071-1083 | from a cut to the floor the full rate takes at least twenty seconds |
| `RateControl.LogNext` | host/src/network/server.cpp:1071-1083 | changes stay a second apart, raises four seconds from any cut, and the rate is what the changes lead to |
| `RateControl.ScaleAfter` | host/src/network/server.cpp:1056-1089 | after any changes the rate is between 0.05 and 1 |
| `RateControl.Controller.RateOnSent` | host/src/network/server.cpp:1056-1089 | over every run the changes are paced; this send cuts, raises or does neither as the window says; a client that never acknowledges is never cut |
| `RateControl.Controller.OnAck` | host/src/network/server.cpp:952-968 | an ACK adds to the losses and the worst delay of the window |
| `RateControl.Controller.OnStreamStart` | host/src/network/server.cpp:335-337 | a restart is no stall for a client that acknowledges |
| `Pacing.NewestIsNeverLost` | host/src/main.cpp:823-832 | before every turn of the loop the newest capture is kept, and was handed to the encoder or is marked unsent |
| `Pacing.SendsArePaced` | host/src/main.cpp:927-933 | two sends are at least the interval in force apart |
| `Pacing.IdrsAreApart` | host/src/main.cpp:800-806 | two requested IDRs are at least 200 ms apart |
| `Pacing.NumbersAreConsecutive` | host/src/main.cpp:974-986 | only frames that are sent are numbered, one after the other |
| `Pacing.HeldFrameGoesOut` | host/src/main.cpp:891-933 | over a run, an unsent frame or a newer one is encoded at the first turn that may |
| `Pacing.RequestIsServed` | host/src/main.cpp:800-806 | over a run, a keyframe request stays until the first turn that may encode 200 ms or more after the last IDR, and is served there |
| `Pacing.StillScreenSettles` | host/src/main.cpp:834-842 | on a still screen, which turns encode: those the interval allows while refinements are left, and one a second after the last send |
| `Pacing.StillScreenCountsDown` | host/src/main.cpp:964-966 | on a still screen with an inter codec each encode takes exactly one from the refinements left, down to none |
| `Pacing.AtMostThirtyRefinements` | host/src/main.cpp:834-842 | at most 30 refinements follow the last change; with none left an encode comes exactly at the turns a second or more after the last send |
| `Pacing.RefineLeftIs` | host/src/main.cpp:961-966 | in any run 30 refinements are left after a new frame or a keyframe from the encoder, less the encodes since; with MJPEG none |
| `Pacing.RefineLeftCountsDown` | host/src/main.cpp:961-966 | the same from any state between such encodes |
| `Pacing.EncodesNewest` | host/src/main.cpp:891-950 | an encode is of the newest frame, and a re-send exactly when that was neither captured at this turn nor held since the last encode |
| `Pacing.IdrIffAsked` | host/src/main.cpp:950-956 | an encode asks for an IDR exactly when a keyframe request is open and the last IDR is 200 ms old |
| `Pacing.ForceIffAsked` | host/src/main.cpp:844-956 | a request is open exactly when one came, or stood at the start, and no IDR was asked for since |
| `Pacing.MarkedUnsentIffTooEarly` | host/src/main.cpp:891-933 | on an idle screen with requests, the kept frame is marked unsent exactly when a keyframe is due before the interval is over; otherwise the refinements left never rise |
| `Pacing.RequestRestartsRefinement` | host/src/main.cpp:891-933 | wherever a keyframe is due before the interval is over, the kept frame is held, next encoded as new, and 30 refinements are left again |
| `Pacing.RefinementsAreAccounted` | host/src/main.cpp:834-842 | refinements are at most those left, one for each IDR, and 31 for each time the kept frame was encoded as new |
| `Pacing.RefinementsWithRequests` | host/src/main.cpp:834-842 | when no keyframe is due too early, at most 30 refinements and one encode for each IDR follow |
| `Pacing.Worker.Iterate` | host/src/main.cpp:844-989 | a turn of the loop takes exactly the step the runs are made of |
| `Pacing.Worker.EncodeFrame` | host/src/main.cpp:950-988 | the second half: IDR, encode, refinement count, send |
| `AnnexB.SplitAnnexB` | host/src/encoder/ffmpeg_encoder.cpp:64-83 | the loop finds the NAL units of the specification by positions |
| `AnnexB.SplitJoined` | host/src/encoder/ffmpeg_encoder.cpp:64-83 | NAL units joined by any start codes come back exactly when none ends in a zero before a 3-byte start code |
| `AnnexB.SplitsJoined` | host/src/encoder/ffmpeg_encoder.cpp:64-83 | any joined units come back, less a zero taken for the start code behind it |
| `ParameterSets.KeyframesCarrySets` | host/src/encoder/ffmpeg_encoder.cpp:384-409 | once a keyframe carried parameter sets every later one leaves with some, its own NAL units behind them intact and in order |
| `ParameterSets.KeyframesCarryTypes` | host/src/encoder/ffmpeg_encoder.cpp:384-409 | by NAL unit type (H.264 7 and 8, HEVC 32 to 34): a keyframe is sent with a unit of that type exactly when the last keyframe with any parameter set, itself included, has one |
| `ParameterSets.KeyframesCarryAllTypes` | host/src/encoder/ffmpeg_encoder.cpp:384-409 | when keyframes have all types or none, every keyframe from the first with any on is sent with all of them |
| `ParameterSets.SpsForgotten` | host/src/encoder/ffmpeg_encoder.cpp:396-408 | a keyframe with a PPS and no SPS makes the host forget the SPS |
| `ParameterSets.TypeDecides` | host/src/encoder/ffmpeg_encoder.cpp:85-92 | what is kept is decided by nal_unit_type, the low five bits of the first byte in H.264, its bits 1 to 6 in HEVC |
| `ParameterSets.HeaderKeepsLastSets` | host/src/encoder/ffmpeg_encoder.cpp:396-408 | the header kept is the parameter sets of the last keyframe that had its own |
| `ParameterSets.Encoder.EnsureParameterSets` | host/src/encoder/ffmpeg_encoder.cpp:384-409 | the method keeps the sets found, or puts the kept ones in front |
| `ParameterSets.Sets` | host/src/encoder/ffmpeg_encoder.cpp:85-92 | what is found are parameter sets, and units of the keyframe |
| `Av1.KeyframesCarryHeader` | host/src/encoder/ffmpeg_encoder.cpp:384-395 | once an AV1 keyframe carried a sequence header every later one leaves with one, its own units as they were, exactly when the header fits behind its delimiter |
| `Av1.Inserts` | host/src/encoder/ffmpeg_encoder.cpp:387-393 | a kept header goes between whole units exactly when it commutes with what the delimiter has behind its second byte |
| `Av1.EmptyDelimiterFits` | host/src/encoder/ffmpeg_encoder.cpp:390-391 | behind a delimiter without extension and payload any header fits, and only such a one has nothing behind its second byte |
| `Av1.DelimiterCut` | host/src/encoder/ffmpeg_encoder.cpp:390-392 | a delimiter with an extension is cut in two and no header is found in what is sent |
| `Av1.WalkFinds` | host/src/encoder/ffmpeg_encoder.cpp:95-119 | the walk finds the first sequence header among units with size fields, byte for byte, and only that |
| `Av1.HasSequenceHeader` | host/src/encoder/ffmpeg_encoder.cpp:95-119 | the loop computes that walk |
| `Av1.SizeAt` | host/src/encoder/ffmpeg_encoder.cpp:103-108 | the seven-bits-at-a-time loop reads the leb128 number |
| `Av1.SizeFits` | host/src/encoder/ffmpeg_encoder.cpp:103-108 | a size read from k bytes is below 2^(7k), so that of up to nine bytes fits 64 bits |
| `Av1.Encoder.EnsureParameterSets` | host/src/encoder/ffmpeg_encoder.cpp:384-395 | the method keeps the header found, or inserts the kept one |
| `Host.RunKeepsInv` | host/src/main.cpp:1029-1326 | over every run of callbacks: workers conserved, one owner, input as recorded and by the owner, screen dark exactly under a lease, input owner 0 or the streaming client |
| `Host.StepKeepsInv` | host/src/main.cpp:1029-1326 | every callback keeps all of that |
| `Host.Outcome` | host/src/main.cpp:1148-1218 | what each event brings: lit on connect and quit, nothing pressed after a takeover or departure, a dark screen after a tick is its owner's and within its lease, all workers joined after quit |
| `Host.InputRefused` | host/src/main.cpp:1264-1301 | a view-only host, and any host for a client that does not drive it, ignores mouse and keyboard |
| `Host.InputInjected` | host/src/main.cpp:1273-1326 | any other mouse or key event is injected as it came, a key with its modifiers |
| `Host.ViewOnlyInjectsNothing` | host/src/main.cpp:1264-1301 | over any run in which view-only stays on, nothing is injected but the host's own releases |
| `Host.OnlyInputInjects` | host/src/main.cpp:1029-1326 | no other event injects anything but those |
| `Host.LeavesAlone` | host/src/main.cpp:1029-1326 | what each event leaves as it was: the parts it does not concern, and everything when the client is another |
| `Host.MisledIffTaken` | host/src/main.cpp:1148-1218 | an event leaves a client believing the screen off that does not hold the lease exactly when the driving client takes a lease from an owner told it is off |
| `Host.MisledInRunIffTaken` | host/src/main.cpp:1148-1218 | in any run some client is misled at some moment exactly when at some moment the lease is taken from an owner told it is off |
| `Host.RunMisleadsNone` | host/src/main.cpp:1148-1218 | in a run without such an event no client is misled in the end |
| `Host.LeaseTaken` | host/src/main.cpp:1166-1172 | client 1 selects and darkens, client 2 selects and renews: client 1 still believes to hold the lease |
| `Host.InitialInv` | host/src/main.cpp:1005-1029 | the invariants hold at the start and no client is misled |
| `Streams.SelectKeepsInv` | host/src/main.cpp:1049-1109 | a selection keeps the invariant; the active monitors are the first three asked for that exist or were kept, kept workers stay, the others are new |
| `Streams.ReconfigureRestarts` | host/src/main.cpp:1238-1262 | a new codec or size restarts exactly the monitors that were streaming and still exist, after one STREAM_STOP each; a bystander changes nothing |
| `Streams.RetuneRestartsNothing` | host/src/main.cpp:1238-1262 | the same codec and size only hand the settings to the running workers |
| `Streams.DisconnectKeepsInv` | host/src/main.cpp:1208-1218 | a departure ends the streams of the client that left, silently |
| `Streams.RemoveVirtualKeepsInv` | host/src/main.cpp:1417-1433 | removing a virtual monitor stops its stream and keeps the others |
| `Streams.ReapKeepsInv` | host/src/main.cpp:1627-1634 | reaping moves exactly the returned workers from the graveyard to the joined |
| `Streams.RetiredGo` | host/src/main.cpp:1005-1020 | of the workers asked to stop, those that return in time are joined and the stuck ones parked |
| `Streams.StopEveryTells` | host/src/main.cpp:1030-1044 | stopping every stream sends its client one STREAM_STOP for each if asked to, and none if not |
| `Streams.QuitJoinsAll` | host/src/main.cpp:1656-1662 | after shutdown every worker ever started was joined, each once, and no STREAM_STOP was sent |
| `Streams.EachWorkerOnce` | host/src/main.cpp:1005-1044 | each worker is active, parked or joined, exactly one of them, and was stopped exactly once unless active |
| `HeldInput.KeyboardKeepsInv` | host/src/main.cpp:1298-1326 | a key event keeps: replaying what was injected leaves exactly the record pressed, all by the current client |
| `HeldInput.MouseKeepsInv` | host/src/main.cpp:1273-1296 | so does a mouse event |
| `HeldInput.ScaledStaysOnMonitor` | host/src/main.cpp:757-766 | scaling to native pixels keeps a position on its monitor and the order of positions, and changes nothing else |
| `HeldInput.LastRegisteredIsInForce` | host/src/main.cpp:455-464 | over any registrations and endings of workers, the scale of a monitor is the last one registered for it unless its own worker has ended; a late-ending older worker takes nothing |
| `HeldInput.KeyboardPresses` | host/src/main.cpp:1302-1325 | the key and the modifiers wrapped round it end up down on a press and up on a release |
| `HeldInput.KeyboardInjects` | host/src/main.cpp:1302-1325 | the entries injected, in order: modifiers down before a pressed key, or up after a released one |
| `HeldInput.WrappingIs` | host/src/main.cpp:1305-1322 | the modifiers are those of the mask's four low bits, each once, and none round the eleven modifier keys |
| `HeldInput.ReleaseClears` | host/src/main.cpp:475-491 | releasing leaves nothing pressed |
| `HeldInput.ReleaseInjects` | host/src/main.cpp:475-491 | what releasing injects is the host's own and lets go of something, without scrolling |
| `HeldInput.TakeOverClears` | host/src/main.cpp:1069-1076 | nothing is pressed after a takeover |
| `HeldInput.LeaveClears` | host/src/main.cpp:1215-1217 | nothing is pressed after the streaming client left |
| `ScreenLease.ScreenOffKeepsInv` | host/src/main.cpp:1148-1173 | only the driving client moves the lease or darkens the screen, never in view-only; a refused client is told so |
| `ScreenLease.TickEnforces` | host/src/main.cpp:1637-1643 | a dark screen stays dark exactly when not view-only, owned by the driving client and renewed within the lease |
| `ScreenLease.LightKeepsInv` | host/src/main.cpp:1141-1147 | lighting ends the lease and tells its owner |
| `ScreenLease.MisledIffTaken` | host/src/main.cpp:1148-1173 | a request leaves a client misled exactly when it takes the lease from an owner who was told it is off |
| `HostService.Service.ApplySelection` | host/src/main.cpp:1049-1109 | reconciles the streams as Streams.Select says, and hands the input over |
| `HostService.Service.StopAll` | host/src/main.cpp:1030-1044 | stops every stream, with one STREAM_STOP each if asked |
| `HostService.Service.Retire` | host/src/main.cpp:1005-1020 | joins the workers that return and parks the others |
| `HostService.Service.OnSelect` | host/src/main.cpp:1220-1229 | takes the selection step; like every callback it keeps the joint invariant of Host |
| `HostService.Service.OnStreamConfig` | host/src/main.cpp:1238-1262 | takes the reconfiguration step |
| `HostService.Service.OnConnected` | host/src/main.cpp:1176-1183 | takes the connection step |
| `HostService.Service.OnDisconnected` | host/src/main.cpp:1208-1218 | takes the departure step |
| `HostService.Service.OnScreenOff` | host/src/main.cpp:1148-1173 | takes the screen-off step |
| `HostService.Service.OnMouse` | host/src/main.cpp:1273-1296 | takes the mouse step with the position in native pixels |
| `HostService.Service.SetInputScale` | host/src/main.cpp:757-766 | registers the scale of a monitor |
| `HostService.Service.EraseInputScale` | host/src/main.cpp:992-996 | takes the scale back if the worker that ended had registered it |
| `HostService.Service.OnKeyboard` | host/src/main.cpp:1298-1326 | takes the keyboard step |
| `HostService.Service.ReleaseInput` | host/src/main.cpp:475-491 | releases buttons and keys as HeldInput.Release says |
| `HostService.Service.RemoveVirtual` | host/src/main.cpp:1417-1433 | takes the removal step |
| `HostService.Service.OnTick` | host/src/main.cpp:1635-1643 | takes the step of the main loop |
| `HostService.Service.Shutdown` | host/src/main.cpp:1656-1662 | takes the step of quitting |
| `HostService.Service.SetViewOnly` | host/src/ui/panel.cpp:434-435 | takes the step of the panel changing view-only |

## Left out

- Sockets, threads, sleeps, keepalive and platform branches: sending appends to a log, time is a parameter, and each
  section under a lock is one atomic step. The check of the input owner and the injection that follows are one step
  here, although the owner can change between them in the program.
- Capture, encoding by libavcodec, display control, audio, UI and panel: calls into code outside the repository. What
  they return (frames, packets, displays found, workers that hang) are parameters.
- `Inflate.Decode`: dynamic Huffman blocks are refused; the compressor never writes one.
- `Zlib.Compress`: lengths are unbounded integers; inputs near 2^31 bytes, where the C `int`s overflow, are not modelled.
- `Zlib.Hash`: nothing is stated of its value; which matches are found depends on it, what the stream means does not.
- JPEG colour conversion, DCT, quantisation, markers and the headers other than the Huffman tables: the scan starts
  from quantised blocks.
- PNG chunks and their CRC, BMP, and the unpacked TGA format.
- `Png.FilterImage`: the choice of the best filter is stated for rows below 2^24 bytes, where the C sum cannot overflow.
- `Hdr.WriteScanline`: the conversion from floating point to four bytes, and the file header.
- `FecReceiver.Reassemble`: frames of other streams and the gates on late, repeated and stopped streams; one frame's
  packets. The client xors eight bytes at a time, the model one.
- `Bridge.Program.OnUdpPacket`: the entries of the buffer are values; which readers a shown frame goes to.
- `ControlFraming.Reader.OnData`: what the messages do once dispatched.
- `WebSocketFraming.Socket.OnData`: the answers to pings and closes.
- `Flow.FlowState.SendVideoPacket`: frames are numbered consecutively, one packet each; wrap-around of 32-bit numbers
  and clients that acknowledge frames never sent are not modelled.
- `RateControl.Controller.RateOnSent`: `float` is exact here.
- `Pacing.Worker.Iterate`: frame rate, bitrate and their retuning beyond the interval they lead to; scaling; restarting
  a lost capture.
- `Av1.SizeAt`: sizes are unbounded; `Av1.SizeFits` shows that the program's 64 bits hold any of up to nine bytes, and
  AV1 allows eight.
- `HostService.Service.OnMouse`: the scaling to native pixels is exact; the program's `double` rounds.
- `HostService.Service.Retire`: the five-second wait is the parameter naming the workers that did not return in it.
- The frame-size rule for H.264 levels, PINs, access keys, cookies, USB tunnelling and discovery.
