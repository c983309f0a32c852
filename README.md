# CleanScope frame pipeline, modelled in Dafny

CleanScope shows the picture of a USB (UVC) endoscope camera. This project models the
byte-level core of its desktop pipeline and proves properties about it:

- **Frame assembler** (`frame_assembler.dfy`, `assembler_properties.dfy`). The assembler is
  a state machine. It takes isochronous USB packets one at a time, with this behaviour:
  - It recognises and strips the UVC payload header, using the relaxed rules of the original.
  - It synchronises on a toggle of the frame-ID (FID) bit.
  - It accumulates payload bytes.
  - It hands out a frame in one of three ways: by size (YUY2), at end of frame from the
    first JPEG SOI marker (MJPEG), or on an FID toggle.

  The transition is the function `Step`. The `FrameAssembler` class holds the same five
  fields as the original, and `ProcessPacket` is proved to perform exactly `Step`.
- **Frame validator** (`frame_validation.dfy`). It classifies a YUY2 frame at four strictness
  levels, by size ratio, stride alignment and a sampled row-difference metric.
- **Integer YUV/RGB conversion** (`yuv_conversion.dfy`):
  - stride detection;
  - the BT.601 integer formula with clamping;
  - the buffer-filling conversions for YUYV/UYVY, I420 and NV12, each proved to fill the
    array with the image described by a pixel function;
  - RGB pass-through and the BGR-to-RGB swap.
- **Test packet generator** (`packet_generator.dfy`): UVC header serialisation, the
  packetiser, the YUY2 pattern generators and the minimal JPEG.
- **Packetise-then-assemble round trips** (`assembly_round_trip.dfy`): feeding a generated
  frame's packets to the assembler gives back exactly that frame.
- **Capture** (`capture.dfy`):
  - the capture session as a sequential `CaptureState` object;
  - the `[u32 len][data]` packet file written by `save_packets` and read by `read_packets`;
  - the timestamped record layout written by `write_capture_files`;
  - the legacy timestamp spreading done by `stop`.
- **Replay** (`replay.dfy`):
  - the timestamped record parser, with its length limit and its end-of-file errors;
  - `duration_ms`;
  - the assembler-selection rule;
  - `replay_all_frames` and `FrameIterator::next`;
  - the running flag behind `start`/`stop`.

Bytes are integers in 0..255 and strings are sequences of characters. Unsigned counters
are unbounded integers, and a 64-bit wrap is written out where the original's
arithmetic can overflow. The caller's clock is a parameter in microseconds.

## Model

| member | source | states |
|---|---|---|
| FrameAssembler.ValidateUvcHeader | src-tauri/src/frame_assembler.rs:342-366 | an accepted header has a length between 2 and 12 that fits in the packet |
| AssemblerProperties.HeaderAcceptance | src-tauri/src/frame_assembler.rs:342-366 | a header is accepted exactly when the packet has at least 2 bytes, the EOH bit is set, and 2 <= d[0] <= 12 with d[0] <= packet length; the result is then d[0] |
| AssemblerProperties.HeaderIgnoresOtherFlagBits | src-tauri/src/frame_assembler.rs:342-366 | changing any flag bit other than EOH (FID, EOF, PTS, SCR, error, reserved) does not change header acceptance |
| FrameAssembler.SoiSearch | src-tauri/src/frame_assembler.rs:314-325 | the scan finds the first offset in its range where an FF D8 marker starts, or reports that there is none |
| FrameAssembler.FrameAssembler.constructor | src-tauri/src/frame_assembler.rs:68-77 | a new assembler has an empty buffer, no FID, is unsynced, has an undecided format and the given expected size |
| FrameAssembler.FrameAssembler.NewMjpeg | src-tauri/src/frame_assembler.rs:79-84 | the assembler starts in MJPEG mode with no expected size |
| FrameAssembler.FrameAssembler.NewYuy2 | src-tauri/src/frame_assembler.rs:86-92 | the assembler starts in YUY2 mode expecting width*height*2 bytes (the product must fit in u32) |
| FrameAssembler.FrameAssembler.Reset | src-tauri/src/frame_assembler.rs:94-98 | reset clears the buffer, the last FID and the sync, and keeps the format and the expected size |
| FrameAssembler.FrameAssembler.ProcessPacket | src-tauri/src/frame_assembler.rs:127-204 | the new state and the result are exactly the transition function applied to the old state and the packet |
| FrameAssembler.FrameAssembler.HandleFidToggle | src-tauri/src/frame_assembler.rs:173-184 | on an FID change the state follows the format-specific toggle handler, and an unsynced assembler becomes synced |
| FrameAssembler.FrameAssembler.CompleteFrame | src-tauri/src/frame_assembler.rs:186-203 | after accumulation, YUY2 drains a frame of the expected size once the buffer holds it; MJPEG at end of frame extracts from the first SOI and empties the buffer; otherwise the earlier result stands |
| FrameAssembler.FrameAssembler.HandleMjpegFidToggle | src-tauri/src/frame_assembler.rs:217-233 | an FID change in MJPEG mode hands out the buffer when synced and starting with SOI, and always empties it |
| FrameAssembler.FrameAssembler.HandleYuy2FidToggle | src-tauri/src/frame_assembler.rs:235-263 | an FID change in synced YUY2 mode hands out the whole non-empty buffer, re-rounds the expected size when the buffer is outside 0.7..1.5 of it, and empties the buffer |
| FrameAssembler.FrameAssembler.AccumulatePayload | src-tauri/src/frame_assembler.rs:265-281 | the buffer grows by the payload after the header, and not at all for zero padding |
| FrameAssembler.FrameAssembler.CheckYuy2FrameComplete | src-tauri/src/frame_assembler.rs:283-299 | once the buffer holds the expected size, exactly that many leading bytes are drained as the frame and the overflow stays |
| FrameAssembler.FrameAssembler.ExtractMjpegFrame | src-tauri/src/frame_assembler.rs:301-340 | the frame is the buffer from the first SOI within the scan limit, or nothing; the buffer is empty afterwards either way |
| FrameAssembler.RoundToYuy2FrameSize | src-tauri/src/frame_assembler.rs:373-394 | the loop over the standard sizes returns the rounding specified by the search function |
| AssemblerProperties.RoundSearchCorrect | src-tauri/src/frame_assembler.rs:373-394 | the best-match loop keeps the closest tolerated size seen so far, the first on a tie, and otherwise rounds down to even |
| AssemblerProperties.RoundedFrameSizeIsClosestStandard | src-tauri/src/frame_assembler.rs:22-32 | the rounded size is even. If a standard size is within 5%, it is the closest such size; otherwise it is (n/2)*2 |
| AssemblerProperties.RoundedFrameSizeFirstOnTie | src-tauri/src/frame_assembler.rs:373-394 | when some standard size is within 5%, every tolerated size listed before the result is strictly farther from n, so the first closest size wins a tie |
| AssemblerProperties.TieGoesToEarlierSize | src-tauri/src/frame_assembler.rs:373-394 | 940800 bytes is equally close to 960000 and 921600 and is rounded to 960000, the earlier entry |
| AssemblerProperties.EmptyPacketSkipped | src-tauri/src/frame_assembler.rs:128-130 | an empty packet is skipped and changes nothing |
| AssemblerProperties.ErrorPacketSkipped | src-tauri/src/frame_assembler.rs:147-157 | a header with the error bit is skipped; in MJPEG mode the partial frame and the sync are dropped, and otherwise the state is unchanged |
| AssemblerProperties.FormatAssignedOnce | src-tauri/src/frame_assembler.rs:159-169 | a decided format never changes; an undecided one is set only once the buffer holds 2 bytes, to "starts with FF D8" |
| AssemblerProperties.SyncOnlyOnToggle | src-tauri/src/frame_assembler.rs:173-184 | the assembler becomes synced only on a non-error packet whose FID differs from the last one seen |
| AssemblerProperties.UnsyncedSkips | src-tauri/src/frame_assembler.rs:186-188 | while unsynced, a packet is skipped and the buffer does not grow |
| AssemblerProperties.LastFrameIdTracksPacket | src-tauri/src/frame_assembler.rs:132-145 | after a non-error packet the last FID is that packet's FID, or the previous FID (false when none) when it has no header |
| AssemblerProperties.UnsyncedBufferStaysEmpty | src-tauri/src/frame_assembler.rs:173-203 | the invariant "unsynced implies empty buffer" is preserved by every packet |
| AssemblerProperties.PayloadIsPacketTail | src-tauri/src/frame_assembler.rs:265-281 | the accumulated payload is the packet after its header (or the whole packet), or nothing when it is zero padding |
| AssemblerProperties.Yuy2SizeCompletion | src-tauri/src/frame_assembler.rs:283-299 | in YUY2 mode, old buffer ++ payload == emitted frame ++ new buffer; a frame is emitted exactly when the expected size is reached, and it has that size |
| AssemblerProperties.ExtractMjpegFindsFirstSoi | src-tauri/src/frame_assembler.rs:301-340 | an extracted frame is the suffix from the first SOI offset below 100 and starts with FF D8; with none, no offset in the scan range holds SOI |
| AssemblerProperties.MjpegEndOfFrame | src-tauri/src/frame_assembler.rs:190-203 | at end of frame in MJPEG mode the buffer is emptied, and a frame handed out starts with SOI and is a suffix of the accumulated bytes |
| AssemblerProperties.EmittedFramesNonEmpty | src-tauri/src/frame_assembler.rs:127-204 | every frame handed out holds at least one byte |
| AssemblerProperties.ToggleFrameOverwritten | src-tauri/src/frame_assembler.rs:173-203 | when one packet both toggles the FID and completes a YUY2 frame, the toggle frame is lost and only the size-completed frame is returned |
| AssemblyRoundTrip.FeedAppend | src-tauri/src/frame_assembler.rs:127-204 | feeding two packet lists one after the other emits the concatenation of their frames |
| AssemblyRoundTrip.GeneratedYuy2FrameAssembled | src-tauri/src/frame_assembler.rs:594-626 | a synced-or-toggling YUY2 assembler fed a packetised frame of the expected size emits exactly that frame |
| AssemblyRoundTrip.Yuy2Continuation | src-tauri/src/frame_assembler.rs:738-760 | the packets of the rest of a frame grow the buffer until the expected size and then emit it, with the remainder kept |
| AssemblyRoundTrip.GeneratedJpegAssembled | src-tauri/src/frame_assembler.rs:669-703 | an MJPEG assembler fed a packetised JPEG emits exactly that JPEG at the EOF packet |
| AssemblyRoundTrip.MjpegContinuation | src-tauri/src/frame_assembler.rs:669-703 | the packets of the rest of a JPEG accumulate and are handed out whole at end of frame |
| AssemblyRoundTrip.MinimalJpegOnePacket | src-tauri/src/test_utils/packet_generator.rs:536-560 | the 182-byte minimal JPEG fits in one packet with EOF set and no zero padding |
| AssemblyRoundTrip.NoZeroRunNoPadding | src-tauri/src/frame_assembler.rs:270-276 | a frame without an 8-byte zero run never produces a payload the assembler drops as padding |
| AssemblyRoundTrip.UnsyncedFrameSkipped | src-tauri/src/frame_assembler.rs:761-797 | an unsynced assembler that sees no FID change skips a whole frame and only records its FID |
| AssemblyRoundTrip.FreshAssemblerSyncsOnSecondFrame | src-tauri/src/frame_assembler.rs:761-797 | a fresh YUY2 assembler drops the first frame and emits exactly the second, whose FID differs |
| FrameValidation.LowerChar | src-tauri/src/frame_validation.rs:33 | ASCII capitals map to lower case and every other character is unchanged |
| FrameValidation.Lower | src-tauri/src/frame_validation.rs:33 | lowering keeps the length and lowers each character |
| FrameValidation.LowerIdempotent | src-tauri/src/frame_validation.rs:33 | lowering twice is lowering once |
| FrameValidation.FromEnvStr | src-tauri/src/frame_validation.rs:32-43 | "off", "none" and "disabled" give Off, "moderate" gives Moderate and "minimal" gives Minimal, after lowering; any other string gives Strict |
| FrameValidation.FromEnvStrCaseInsensitive | src-tauri/src/frame_validation.rs:32-43 | strings that lower to the same text parse to the same level |
| FrameValidation.FromEnvStrExamples | src-tauri/src/frame_validation.rs:335-363 | "STRICT" gives Strict, "None" gives Off and "invalid" gives Strict |
| FrameValidation.ComputeRowSimilarity | src-tauri/src/frame_validation.rs:179-207 | the sampling loops compute the average absolute difference between vertically adjacent bytes, every 32 bytes, over the first min(3, height-1) row pairs |
| FrameValidation.SampleRowPair | src-tauri/src/frame_validation.rs:190-200 | the inner loop adds one row pair's sample total and count to the running tally |
| FrameValidation.RowSimilarityRange | src-tauri/src/frame_validation.rs:179-207 | the average lies between 0 and 255, and is 0 when nothing was sampled |
| FrameValidation.RowSimilarityAboveThreshold | src-tauri/src/frame_validation.rs:142-155 | "average above 40" is exactly the integer test total > 40 * samples |
| FrameValidation.UniformFrameNoRowDiff | src-tauri/src/frame_validation.rs:179-207 | a frame of one repeated byte has row difference 0 |
| FrameValidation.ValidateYuy2Frame | src-tauri/src/frame_validation.rs:76-173 | Off accepts everything. Otherwise valid exactly when the size is within the level's ratio range, the stride is aligned and the row difference is at most 40 (Strict, height >= 4 and enough data only). The stride counts as aligned exactly when the level is neither Strict nor Moderate, or the size is a whole number of 2w-byte rows, or it is within 2w bytes of the expected size. valid holds exactly when there is no failure list, and the list names each failed check |
| FrameValidation.MisalignedFrameRejected | src-tauri/src/frame_validation.rs:116-132 | a 64x48 frame of 6344 bytes where 6144 are expected passes the Moderate size check but fails with exactly one reason, stride misalignment |
| FrameValidation.SizeOkCrossMultiplied | src-tauri/src/frame_validation.rs:102-115 | the size check is 5e <= 10a <= 20e for Minimal and 9e <= 10a <= 11e for Moderate and Strict |
| FrameValidation.LevelsOrderedByStrictness | src-tauri/src/frame_validation.rs:18-28 | a frame valid at Strict is valid at Moderate, one valid at Moderate is valid at Minimal, and every frame is valid at Off |
| YuvConversion.CalculateYuy2Stride | src-tauri/src/yuv_conversion.rs:61-105 | the standard size gives 2w. The result always lies in [2w, 2w*12/10]. A result other than 2w is the 32-bit frame size divided by the height. When the size is not standard and that quotient lies in [2w, 2w*12/10], the quotient is returned, so padded rows are detected |
| YuvConversion.PaddedStrideDetected | src-tauri/src/yuv_conversion.rs:1062-1071 | a 640x480 frame of 1344*480 bytes gets stride 1344 |
| YuvConversion.ExcessivePaddingIgnored | src-tauri/src/yuv_conversion.rs:1073-1087 | a 640x480 frame 50% larger than standard keeps stride 1280 |
| YuvConversion.NeutralChromaIsGrey | src-tauri/src/yuv_conversion.rs:401-416 | with U = V = 128 the colour is grey (R = G = B) |
| YuvConversion.YuvToRgbMonotoneInLuma | src-tauri/src/yuv_conversion.rs:391-416 | with the chroma fixed, a larger luma never decreases any clamped channel |
| YuvConversion.LimitedRangeEndpoints | src-tauri/src/yuv_conversion.rs:401-416 | luma 16 gives black and luma 235 gives white |
| YuvConversion.ConvertYuv422ToRgb | src-tauri/src/yuv_conversion.rs:422-495 | error exactly when the data is shorter than 2wh; otherwise the output is the 3wh-byte image whose pixels are read at the detected or given stride, black past the end of the data |
| YuvConversion.ConvertRows422 | src-tauri/src/yuv_conversion.rs:449-494 | the row loop fills the zeroed buffer with all rows of the image |
| YuvConversion.ConvertRow422 | src-tauri/src/yuv_conversion.rs:454-493 | the column loop writes one row's pixels and stops early, leaving black, at the end of the data |
| YuvConversion.PastEnd422Black | src-tauri/src/yuv_conversion.rs:456-458 | from the first macropixel past the end of the data, every pixel of the row stays black |
| YuvConversion.UyvyIsPairSwappedYuyv | src-tauri/src/yuv_conversion.rs:461-474 | a UYVY macropixel reads like the YUYV one with bytes 0/1 and 2/3 exchanged |
| YuvConversion.Yuv422PixelAt | src-tauri/src/yuv_conversion.rs:476-490 | pixel (r, c) is stored at byte r*3w + 3c of the output |
| YuvConversion.ConvertYuy2ToRgb | src-tauri/src/yuv_conversion.rs:725-738 | the YUY2 entry point gives the same result as the YUYV case of the packed conversion |
| YuvConversion.ConvertI420ToRgb | src-tauri/src/yuv_conversion.rs:501-550 | error exactly when the data is shorter than wh + 2(wh/4); otherwise the output is the 3wh-byte image read from the Y, U and V planes |
| YuvConversion.EvenDimensionsI420InBounds | src-tauri/src/yuv_conversion.rs:501-550 | with even dimensions every chroma index stays inside its plane |
| YuvConversion.OddWidthI420OutOfBounds | src-tauri/src/yuv_conversion.rs:501-550 | a 3x2 frame passes the size check but its chroma index runs past the plane |
| YuvConversion.I420BlockSharesChroma | src-tauri/src/yuv_conversion.rs:530-545 | pixels of one 2x2 block with equal luma convert to the same colour |
| YuvConversion.ConvertNv12ToRgb | src-tauri/src/yuv_conversion.rs:556-603 | error exactly when the data is shorter than wh + wh/2; otherwise the output is the 3wh-byte image read from the Y plane and the interleaved UV plane |
| YuvConversion.EvenDimensionsNv12InBounds | src-tauri/src/yuv_conversion.rs:556-603 | with even dimensions every UV index stays inside the data |
| YuvConversion.OddWidthNv12OutOfBounds | src-tauri/src/yuv_conversion.rs:556-603 | a 3x1 frame passes the size check but its V index runs past the data |
| YuvConversion.Nv12BlockSharesChroma | src-tauri/src/yuv_conversion.rs:580-598 | pixels of one 2x2 block with equal luma convert to the same colour |
| YuvConversion.PassThroughRgb888 | src-tauri/src/yuv_conversion.rs:626-654 | error exactly when the data is shorter than 3wh; otherwise the first 3wh bytes |
| YuvConversion.PassThroughIdempotent | src-tauri/src/yuv_conversion.rs:626-654 | passing a passed-through buffer again returns it unchanged |
| YuvConversion.SwapRedBlueAt | src-tauri/src/yuv_conversion.rs:699-705 | output byte i is input byte Mirror(i), the same pixel with channel 0 and 2 exchanged |
| YuvConversion.SwapRedBluePixels | src-tauri/src/yuv_conversion.rs:699-705 | out[3i] = in[3i+2], out[3i+1] = in[3i+1], out[3i+2] = in[3i] |
| YuvConversion.SwapRedBlueInvolution | src-tauri/src/yuv_conversion.rs:672-708 | swapping twice gives the input back |
| YuvConversion.ConvertBgr888ToRgb | src-tauri/src/yuv_conversion.rs:672-708 | error exactly when the data is shorter than 3wh; otherwise the channel swap of the first 3wh bytes |
| YuvConversion.BgrRoundTrip | src-tauri/src/yuv_conversion.rs:1011-1036 | converting twice gives back the 3wh-byte prefix of the input |
| PacketGenerator.FlagsByteDecodes | src-tauri/src/test_utils/packet_generator.rs:128-161 | the flags byte has EOH set, the header's FID and EOF, no error bit, and PTS/SCR bits exactly when present |
| PacketGenerator.HeaderRoundTrip | src-tauri/src/test_utils/packet_generator.rs:104-161 | minimal and full headers serialise to as many bytes as their length field; the assembler accepts them in front of any payload and reads back the FID, EOF and the little-endian PTS |
| PacketGenerator.SplitIntoPackets | src-tauri/src/test_utils/packet_generator.rs:509-533 | the packetising loop produces the packet list of the packetising function |
| PacketGenerator.NextPacket | src-tauri/src/test_utils/packet_generator.rs:516-531 | one loop step emits the next packet and advances the offset by 1 to maxPayload bytes |
| PacketGenerator.PacketizeRoundTrip | src-tauri/src/test_utils/packet_generator.rs:509-533 | stripping each 2-byte header and concatenating the payloads gives back the frame |
| PacketGenerator.PacketizeCount | src-tauri/src/test_utils/packet_generator.rs:509-533 | there are ceil(frame length / maxPayload) packets, none for an empty frame |
| PacketGenerator.PacketizeShape | src-tauri/src/test_utils/packet_generator.rs:516-531 | each packet is a 2-byte header with the frame's FID, EOF on the last packet only, then 1 to maxPayload bytes |
| PacketGenerator.PacketizedHeadersDecode | src-tauri/src/test_utils/packet_generator.rs:516-531 | the assembler reads each packet's header as length 2 with the frame's FID, no error, and EOF only on the last |
| PacketGenerator.PacketGenerator.constructor | src-tauri/src/test_utils/packet_generator.rs:180-185 | a new generator has the given payload size and FID false |
| PacketGenerator.PacketGenerator.PacketizeFrame | src-tauri/src/test_utils/packet_generator.rs:509-533 | the FID flips once per frame and the frame is packetised with the new FID |
| PacketGenerator.PacketGenerator.PacketizeFrameMjpeg | src-tauri/src/test_utils/packet_generator.rs:536-560 | the FID flips once per frame and the JPEG is packetised with the new FID |
| PacketGenerator.PacketGenerator.GenerateYuy2Solid | src-tauri/src/test_utils/packet_generator.rs:260-275 | the nested loops produce the solid-colour image |
| PacketGenerator.SolidFrameUniform | src-tauri/src/test_utils/packet_generator.rs:260-275 | a solid frame has h*(w/2)*4 bytes, every 4-byte group being (y, u, y, v) |
| PacketGenerator.PacketGenerator.GenerateYuy2Checkerboard | src-tauri/src/test_utils/packet_generator.rs:296-322 | the nested loops produce the checkerboard image |
| PacketGenerator.CheckerboardBlocks | src-tauri/src/test_utils/packet_generator.rs:296-322 | macropixel (row, x) is white exactly when its 8x8 block indices sum to an even number |
| PacketGenerator.DrawableExactlyWithoutZeroDivisor | src-tauri/src/test_utils/packet_generator.rs:345-401 | colour bars are drawable unless the bar width width/8 is 0 while a row and a macropixel exist; a crosshatch is drawable unless the spacing is 0 while a row exists |
| PacketGenerator.PacketGenerator.GenerateYuy2ColorBars | src-tauri/src/test_utils/packet_generator.rs:328-362 | the nested loops produce the colour-bar image |
| PacketGenerator.ColorBarsColumns | src-tauri/src/test_utils/packet_generator.rs:328-362 | macropixel x shows bar min(2x / (w/8), 7) in every row |
| PacketGenerator.Bar | src-tauri/src/test_utils/packet_generator.rs:345-351 | the bar index is always one of the 8 bars |
| PacketGenerator.PacketGenerator.GenerateYuy2Crosshatch | src-tauri/src/test_utils/packet_generator.rs:391-418 | the nested loops produce the crosshatch image |
| PacketGenerator.CrosshatchLines | src-tauri/src/test_utils/packet_generator.rs:391-418 | macropixel (row, x) is white exactly when row or 2x is a multiple of the spacing |
| PacketGenerator.ImageLayout | src-tauri/src/test_utils/packet_generator.rs:260-418 | a generated image has h*(w/2)*4 bytes, and macropixel (row, x) sits at index row*(w/2)+x with its pattern colour |
| PacketGenerator.MinimalJpeg | src-tauri/src/test_utils/packet_generator.rs:421-506 | the minimal JPEG is 182 bytes, starts with FF D8 and ends with FF D9 |
| Capture.SavePackets | src-tauri/src/capture.rs:357-378 | the writer loop produces the length-prefixed serialisation of the packets |
| Capture.ReadPackets | src-tauri/src/capture.rs:606-631 | the reader loop returns the parse of the file: the packets, or an error when the file ends inside a record |
| Capture.SavedRoundTrip | src-tauri/src/capture.rs:763-795 | reading a saved packet file gives back the same packets (each shorter than 2^32 bytes) |
| Capture.WriteCaptureFiles | src-tauri/src/capture.rs:525-587 | the packet file is the timestamped records of the packets; the metadata totals are the packet count and the byte sum modulo 2^64 |
| Capture.LegacyTimestamp | src-tauri/src/capture.rs:476-480 | a spread timestamp never exceeds the duration |
| Capture.Timestamped | src-tauri/src/capture.rs:466-487 | the captured list keeps each recorded packet in order with endpoint 0 |
| Capture.TimestampsSpread | src-tauri/src/capture.rs:466-487 | timestamps start at 0, end at the duration when there are two or more packets, and never decrease |
| Capture.CaptureState.constructor | src-tauri/src/capture.rs:132 | a new state is idle, with no packets, zero counters and default metadata |
| Capture.CaptureState.StartCapture | src-tauri/src/capture.rs:171-214 | fails with AlreadyActive and changes nothing while capturing; otherwise starts with no packets, zero counters, the start time and the given metadata |
| Capture.CaptureState.Start | src-tauri/src/capture.rs:435-438 | the legacy start is StartCapture with default metadata |
| Capture.CaptureState.RecordPacket | src-tauri/src/capture.rs:225-242 | ignored when idle; otherwise appends the packet and adds 1 and its length to the counters, keeping them equal to the count and byte sum modulo 2^64 |
| Capture.CaptureState.AddPacket | src-tauri/src/capture.rs:510-513 | the legacy entry drops the endpoint and records the data like RecordPacket |
| Capture.CaptureState.RecordFrame | src-tauri/src/capture.rs:247-255 | only while capturing, the frame total grows by one and nothing else changes |
| Capture.CaptureState.StopCapture | src-tauri/src/capture.rs:269-341 | fails with NotActive when idle. The capture ends even when the directory is missing. On success the metadata gets the elapsed milliseconds and the counters, and the saved bytes are returned |
| Capture.CaptureState.CancelCapture | src-tauri/src/capture.rs:346-352 | the capture ends and the packets are dropped, while the counters and the metadata stay |
| Capture.CaptureState.Stop | src-tauri/src/capture.rs:444-488 | the capture ends, the buffer empties and the recorded packets come back with timestamps spread over the elapsed time |
| Capture.RecordSession | src-tauri/src/capture.rs:171-341 | a start/record/stop session writes a file that reads back as the recorded packets, with matching totals |
| Replay.ReadPacketsWithTimestamps | src-tauri/src/replay.rs:189-255 | the parsing loop returns the record parse of the whole file |
| Replay.RecordsAt | src-tauri/src/replay.rs:189-255 | records serialised anywhere in a file parse back, from their offset, to the same packets followed by the parse of what comes after |
| Replay.CaptureFileRoundTrip | src-tauri/src/replay.rs:189-255 | parsing the records written for a capture gives back the same packets (data of at most 1 MiB) |
| Replay.ShortTailIgnored | src-tauri/src/replay.rs:196-200 | fewer than 8 trailing bytes after the last record are ignored |
| Replay.OversizedRecordRejected | src-tauri/src/replay.rs:214-220 | a declared length above 1 MiB fails with TooLong at that record's offset |
| Replay.CutLengthRejected | src-tauri/src/replay.rs:205-212 | a file ending inside a length field fails with LengthEof at that record's offset |
| Replay.CutEndpointRejected | src-tauri/src/replay.rs:222-229 | a file ending before the endpoint byte fails with EndpointEof |
| Replay.CutDataRejected | src-tauri/src/replay.rs:230-237 | a file ending inside a record's data fails with DataEof and the declared length |
| Replay.DurationCoversAll | src-tauri/src/replay.rs:301-306 | with nondecreasing timestamps, every packet's time in ms is at most the duration |
| Replay.LegacyCaptureDuration | src-tauri/src/capture.rs:466-487 | a legacy capture of two or more packets replays with a duration of duration_us/1000 and nondecreasing timestamps |
| Replay.ContainsIff | src-tauri/src/replay.rs:461-463 | the substring scan succeeds exactly when the pattern occurs at some offset |
| Replay.JpegFormatIff | src-tauri/src/replay.rs:461-463 | the "mjpeg or jpeg" test is the same as "contains jpeg", case-insensitively |
| Replay.AssemblerChoice | src-tauri/src/replay.rs:448-475 | the chosen assembler starts empty and unsynced. It is MJPEG exactly when forced, or when there is no fixed size and the format names jpeg. It is YUY2 exactly when sized from a non-jpeg format with non-zero dimensions |
| Replay.Yuy2MetadataExample | src-tauri/src/replay.rs:847-857 | a yuy2 640x480 capture gives a YUY2 assembler expecting 614400 bytes |
| Replay.MjpegMetadataExample | src-tauri/src/replay.rs:461-466 | an "MJPEG" format gives an MJPEG assembler |
| Replay.CreateAssembler | src-tauri/src/replay.rs:448-475 | the new assembler is in the state the selection rule chooses |
| Replay.FeedGoesOn | src-tauri/src/replay.rs:514-518 | one more packet extends the frames emitted so far by its result's frame, keeping the overall outcome |
| Replay.ReplayAllFrames | src-tauri/src/replay.rs:504-521 | the result is the parse error, or exactly the frames emitted by feeding every packet in order to one assembler |
| Replay.FrameIterator.constructor | src-tauri/src/replay.rs:546-556 | the iterator holds the parsed packets and the assembler |
| Replay.FrameIterator.Next | src-tauri/src/replay.rs:561-568 | the next frame is the first frame emitted by the remaining packets; None only once they are used up, and the overall outcome is unchanged |
| Replay.OpenFrameIterator | src-tauri/src/replay.rs:546-556 | a parse error is passed through; otherwise the iterator starts on all packets with the chosen assembler |
| Replay.PacketReplay.constructor | src-tauri/src/replay.rs:161-167 | a loaded replay has its packets, the metadata, the default configuration and is not running |
| Replay.PacketReplay.Start | src-tauri/src/replay.rs:326-350 | fails with AlreadyRunning and changes nothing while running; otherwise it is running |
| Replay.PacketReplay.Stop | src-tauri/src/replay.rs:357-369 | fails with NotRunning and changes nothing when not running; otherwise it stops |
| Replay.Load | src-tauri/src/replay.rs:142-167 | a parse error is passed through; otherwise the replay holds the parsed packets |

## Left out

- Threads, atomics and mutexes are not modelled: `CaptureState` is a sequential object, and lock-poisoning errors are not modelled.
- The replay thread, its channels, sleeps and f64 speed pacing (`replay_thread`), and looping playback are not modelled: `PacketReplay.Start`/`Stop` keep only the running flag.
- The file system and JSON are not modelled: opening and creating files, `save_metadata`/`read_metadata`, and `try_load_metadata` path probing. The metadata is a parameter, and the record formats are modelled over byte sequences.
- The FileOpen, Metadata, Io and ChannelClosed errors are not modelled. The error message strings are not modelled either.
- The Android conversion path in yuv_conversion.rs is not modelled, because it calls into a library that is not part of this model.
- `Rgb::to_yuv` and the gradient generators are not modelled, because they compute with floats. The generators take the YUV triple as a parameter.
- The `PacketGenerator` convenience methods (`yuy2_solid_frame` and the other `*_frame` methods) are not modelled separately. Each is a generator followed by `PacketizeFrame`, and both of those are modelled.
- Logging is not modelled, nor the static parameter hash the assembler logs with.
- Getters and status snapshots are not modelled: `is_capturing`, `packet_count`, `byte_count`, `status`, `is_running`, `metadata`, `set_config`, `load_with_config`, `force_sync`, `Drop`.
- The caller's clock is a parameter, `now`, in microseconds; `Instant` and `SystemTime` are not modelled.
- FrameValidation.Lower: lowers ASCII letters only; Unicode case mapping of `to_lowercase` is not modelled.
- FrameValidation.ValidateYuy2Frame: the f32 size ratio and thresholds are not modelled. The comparisons are exact rational (cross-multiplied) comparisons, so f32 rounding at the exact boundaries may differ. The row-similarity average is an exact real, not an f32.
- FrameAssembler.FrameAssembler.HandleYuy2FidToggle: the f32 0.7..1.5 ratio test is modelled as integer cross-multiplication, so exact-boundary rounding may differ.
- FrameAssembler.FrameAssembler.NewYuy2: requires width*height*2 to fit in u32, where the original would overflow.
- Replay.Yuy2SizeFits: the replay entry points require that a YUY2 size taken from metadata fits in u32, for the same reason.
- YuvConversion.ConvertI420ToRgb: requires the chroma indices to stay inside the planes. The original panics on odd dimensions, and `OddWidthI420OutOfBounds` shows such an input.
- YuvConversion.ConvertNv12ToRgb: requires the chroma indices to stay inside the data, for the same reason (`OddWidthNv12OutOfBounds`).
- Integer-width preconditions on width and height products (`2*w*h`, `3*w*h`, `24*w`) stand for the original's u32/usize arithmetic.
- Capture.CaptureState.RecordPacket: the u64 counters wrap modulo 2^64, as `fetch_add` does.
- Capture.CaptureState.RecordFrame: `total_frames += 1` is modelled as wrapping modulo 2^64. The overflow panic of a debug build is not modelled.
- YuvConversion.CalculateYuy2Stride: requires `height > 0` unless the size is 0. The excluded inputs (height 0 with a non-zero size) are exactly those where the original divides by zero and panics.
- YuvConversion.ConvertYuv422ToRgb: inherits the height-0 precondition when no stride override is given, for the same reason. The u32 product `row * actual_stride` is computed without bound, so a huge stride override that would overflow u32 in the original is not modelled.
- YuvConversion.ConvertYuy2ToRgb: the same height-0 precondition and unbounded stride product as ConvertYuv422ToRgb.
- FrameValidation.ValidateYuy2Frame: requires both sizes below 2^31. Above that, the original's `as i32` casts wrap, and that wraparound is not modelled.
- PacketGenerator.SplitIntoPackets: requires a positive payload size unless the data is empty. With payload size 0 the original loop never advances and never ends.
- PacketGenerator.PacketGenerator.PacketizeFrame: the same positive-payload precondition, for the same reason.
- PacketGenerator.PacketGenerator.PacketizeFrameMjpeg: the same positive-payload precondition, for the same reason.
- PacketGenerator.PacketGenerator.GenerateYuy2ColorBars: excludes 2 <= width < 8 with height > 0. There the bar width is 0 and the original divides by zero.
- PacketGenerator.PacketGenerator.GenerateYuy2Crosshatch: excludes grid spacing 0 with height > 0. There the original's `row % grid_spacing` panics on the first row.
- Capture.Timestamped: the product `duration_us * i` is unbounded. A u64 overflow of that product in the original is not modelled.
- Replay.ReadPacketsWithTimestamps: the check `offset > file_size` can never fire, so it has no counterpart.
- AssemblerProperties.ToggleFrameOverwritten: a packet that both toggles the FID and completes a YUY2 frame loses the toggle frame. This is modelled as the original behaves; the design does not say whether it is intended.
