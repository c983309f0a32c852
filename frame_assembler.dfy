// The UVC frame assembler: turns a stream of isochronous payload packets into
// complete video frames, YUY2 by byte count and MJPEG by end-of-frame marker.
//
// `AssemblerState` and `Step` state what one call of `process_packet` does to
// the assembler's fields; the class `FrameAssembler` is the object the program
// mutates, and its `ProcessPacket` is proved to perform exactly `Step`.

module FrameAssembler {
  import opened Common

  /** Outcome of feeding one packet. */
  datatype ProcessResult = Accumulating | Frame(data: seq<byte>) | Skipped

  /** Snapshot of every field of the assembler. */
  datatype AssemblerState = AssemblerState(
    frameBuffer: seq<byte>,
    lastFrameId: Option<bool>,
    synced: bool,
    isMjpeg: Option<bool>,
    expectedFrameSize: nat)

  /** The three header flags the assembler reads. */
  datatype Flags = Flags(endOfFrame: bool, frameId: bool, error: bool)

  // ---------------------------------------------------------------------
  // Header, marker and size helpers
  // ---------------------------------------------------------------------

  /** Bit 7 (0x80) of the flags byte: end of header. */
  predicate EndOfHeaderBit(flags: byte) { flags >= 0x80 }

  /** Bit 6 (0x40): the camera reports an error in this payload. */
  predicate ErrorBit(flags: byte) { (flags / 0x40) % 2 == 1 }

  /** Bit 1 (0x02): last packet of the frame. */
  predicate EndOfFrameBit(flags: byte) { (flags / 2) % 2 == 1 }

  /** Bit 0 (0x01): frame identifier, toggles at every new frame. */
  predicate FrameIdBit(flags: byte) { flags % 2 == 1 }

  /**
   * Relaxed payload-header validation: the header length when the packet
   * starts with a plausible header, None otherwise.
   */
  function ValidateUvcHeader(data: seq<byte>): (headerLen: Option<nat>)
    ensures headerLen.Some? ==> 2 <= headerLen.value <= 12 && headerLen.value <= |data|
  {
    if |data| < 2 then None
    else if !EndOfHeaderBit(data[1]) then None
    else if !(2 <= data[0] <= 12) || data[0] > |data| then None
    else Some(data[0])
  }

  /** The data starts with the JPEG start-of-image marker FF D8. */
  predicate IsJpegData(data: seq<byte>)
  {
    |data| >= 2 && data[0] == 0xFF && data[1] == 0xD8
  }

  /** A payload the camera padded with zeros: more than 8 bytes, the first 8 zero. */
  predicate ZeroFilled(payload: seq<byte>)
  {
    |payload| > 8 && forall i :: 0 <= i < 8 ==> payload[i] == 0
  }

  /**
   * The standard YUY2 frame sizes (width * height * 2), in table order:
   * 320x240, 640x480, 800x600, 1280x720, 1920x1080, 1280x960, 1600x1200,
   * 960x480 and 1920x480.
   */
  const FRAME_SIZES: seq<nat> := [
    153600, 614400, 960000, 1843200, 4147200, 2457600, 3840000, 921600, 1843200]

  /** `usize::MAX` on a 64-bit target, the initial best difference. */
  const USIZE_MAX: nat := U64_LIMIT - 1

  /** A standard size is close enough to n when within 5% of the standard size. */
  predicate Tolerated(size: nat, n: nat)
  {
    AbsDiff(size, n) < size / 20
  }

  /**
   * The search of `round_to_yuy2_frame_size` through a table of sizes from
   * entry i on, with the best match and difference found so far.
   */
  function RoundSearch(table: seq<nat>, n: nat, i: nat, bestMatch: nat, bestDiff: nat): nat
    decreases |table| - i
  {
    if i >= |table| then
      if bestMatch == n then (n / 2) * 2 else bestMatch
    else
      var size := table[i];
      var diff := AbsDiff(size, n);
      if diff < bestDiff && diff < size / 20 then RoundSearch(table, n, i + 1, size, diff)
      else RoundSearch(table, n, i + 1, bestMatch, bestDiff)
  }

  /** The standard size that a buffer of n bytes is rounded to. */
  function RoundedFrameSize(n: nat): nat
  {
    RoundSearch(FRAME_SIZES, n, 0, n, USIZE_MAX)
  }

  /** Where the MJPEG scan for a misplaced SOI marker stops: min(n - 1, 100), saturating. */
  function SoiScanLimit(n: nat): nat
  {
    Min(if n >= 1 then n - 1 else 0, 100)
  }

  /** First offset j in [from, limit) at which a JPEG SOI marker starts. */
  function SoiSearch(buffer: seq<byte>, from: nat, limit: nat): (j: Option<nat>)
    requires limit <= |buffer|
    ensures j.Some? ==> from <= j.value < limit && IsJpegData(buffer[j.value..])
    ensures j.Some? ==> forall k :: from <= k < j.value ==> !IsJpegData(buffer[k..])
    ensures j.None? ==> forall k :: from <= k < limit ==> !IsJpegData(buffer[k..])
    decreases limit - from
  {
    if from >= limit then None
    else if IsJpegData(buffer[from..]) then Some(from)
    else SoiSearch(buffer, from + 1, limit)
  }

  /** The MJPEG frame taken out of the buffer at end of frame, if any. */
  function ExtractMjpeg(buffer: seq<byte>): Option<seq<byte>>
  {
    if IsJpegData(buffer) then Some(buffer)
    else
      match SoiSearch(buffer, 0, SoiScanLimit(|buffer|))
      case None => None
      case Some(j) => Some(buffer[j..])
  }

  /** The bytes a packet adds to the frame buffer. */
  function AcceptedPayload(packet: seq<byte>, headerLen: nat, hasHeader: bool): seq<byte>
  {
    if hasHeader then
      if headerLen <= |packet| && !ZeroFilled(packet[headerLen..]) then packet[headerLen..] else []
    else
      if !ZeroFilled(packet) then packet else []
  }

  // ---------------------------------------------------------------------
  // The state machine
  // ---------------------------------------------------------------------

  function InitialState(expectedFrameSize: nat): AssemblerState
  {
    AssemblerState([], None, false, None, expectedFrameSize)
  }

  /** The flags of a packet; without a valid header only the last FID is carried over. */
  function PacketFlags(packet: seq<byte>, header: Option<nat>, lastFrameId: Option<bool>): Flags
    requires header.Some? ==> |packet| >= 2
  {
    if header.Some? then
      Flags(EndOfFrameBit(packet[1]), FrameIdBit(packet[1]), ErrorBit(packet[1]))
    else
      Flags(false, lastFrameId.GetOr(false), false)
  }

  /** Format detection from the first two buffered bytes, done once. */
  function DetectFormat(s: AssemblerState): AssemblerState
  {
    if s.isMjpeg.None? && |s.frameBuffer| >= 2 then s.(isMjpeg := Some(IsJpegData(s.frameBuffer)))
    else s
  }

  /** FID toggle in MJPEG mode: emit the buffer if it is a JPEG, drop it otherwise. */
  function MjpegFidToggle(s: AssemblerState): (AssemblerState, ProcessResult)
  {
    if |s.frameBuffer| > 0 && s.synced && IsJpegData(s.frameBuffer) then
      (s.(frameBuffer := []), Frame(s.frameBuffer))
    else
      (s.(frameBuffer := []), Accumulating)
  }

  /**
   * The ratio check of the YUY2 toggle, 0.7 <= buffered / expected <= 1.5,
   * by cross-multiplication (an expected size of 0 is never in range).
   */
  predicate SizeRatioInRange(buffered: nat, expected: nat)
  {
    7 * expected <= 10 * buffered && 10 * buffered <= 15 * expected
  }

  /** FID toggle in YUY2 mode: emit the whole buffer, re-estimating the frame size if far off. */
  function Yuy2FidToggle(s: AssemblerState): (AssemblerState, ProcessResult)
  {
    var b := |s.frameBuffer|;
    if b > 0 && s.synced then
      var expected :=
        if !SizeRatioInRange(b, s.expectedFrameSize) then RoundedFrameSize(b) else s.expectedFrameSize;
      (s.(frameBuffer := [], expectedFrameSize := expected), Frame(s.frameBuffer))
    else
      (s, Accumulating)
  }

  /** Frame boundary handling when the FID differs from the last one seen. */
  function FidToggle(s: AssemblerState, frameId: bool, mjpeg: bool): (AssemblerState, ProcessResult)
  {
    if s.lastFrameId.Some? && frameId != s.lastFrameId.value then
      var t := if mjpeg then MjpegFidToggle(s) else Yuy2FidToggle(s);
      (t.0.(synced := true), t.1)
    else
      (s, Accumulating)
  }

  /** Completion check after accumulating: size-based for YUY2, EOF-based for MJPEG. */
  function Complete(s: AssemblerState, mjpeg: bool, endOfFrame: bool, pending: ProcessResult)
    : (AssemblerState, ProcessResult)
  {
    var buffer := s.frameBuffer;
    var expected := s.expectedFrameSize;
    if !mjpeg then
      if |buffer| >= expected && expected > 0 then
        (s.(frameBuffer := buffer[expected..]), Frame(buffer[..expected]))
      else
        (s, pending)
    else if endOfFrame && |buffer| > 0 then
      var extracted := ExtractMjpeg(buffer);
      (s.(frameBuffer := []), if extracted.Some? then Frame(extracted.value) else pending)
    else
      (s, pending)
  }

  /** A packet whose header carries the error flag: MJPEG drops the partial frame and the sync. */
  function ErrorPacket(s: AssemblerState): (AssemblerState, ProcessResult)
  {
    if s.isMjpeg.GetOr(false) then (s.(frameBuffer := [], synced := false), Skipped)
    else (s, Skipped)
  }

  /** A non-empty packet without the error flag: detect, handle a toggle, accumulate, complete. */
  function AcceptPacket(s: AssemblerState, packet: seq<byte>, header: Option<nat>, flags: Flags)
    : (AssemblerState, ProcessResult)
  {
    var detected := DetectFormat(s);
    var mjpeg := detected.isMjpeg.GetOr(false);
    var toggled := FidToggle(detected, flags.frameId, mjpeg);
    var s1 := toggled.0.(lastFrameId := Some(flags.frameId));
    if !s1.synced then (s1, Skipped)
    else
      var s2 := s1.(frameBuffer := s1.frameBuffer + AcceptedPayload(packet, header.GetOr(0), header.Some?));
      Complete(s2, mjpeg, flags.endOfFrame, toggled.1)
  }

  /** One call of `process_packet`: the new state and the result. */
  function Step(s: AssemblerState, packet: seq<byte>): (AssemblerState, ProcessResult)
  {
    if |packet| == 0 then (s, Skipped)
    else
      var header := ValidateUvcHeader(packet);
      var flags := PacketFlags(packet, header, s.lastFrameId);
      if flags.error then ErrorPacket(s) else AcceptPacket(s, packet, header, flags)
  }

  // ---------------------------------------------------------------------
  // The mutable assembler
  // ---------------------------------------------------------------------

  class FrameAssembler {
    var frameBuffer: seq<byte>
    var lastFrameId: Option<bool>
    var synced: bool
    var isMjpeg: Option<bool>
    var expectedFrameSize: nat

    function State(): AssemblerState
      reads this
    {
      AssemblerState(frameBuffer, lastFrameId, synced, isMjpeg, expectedFrameSize)
    }

    /** An assembler for frames of the given size (0: decided by end of frame). */
    constructor (expectedFrameSize: nat)
      ensures State() == InitialState(expectedFrameSize)
    {
      frameBuffer := [];
      lastFrameId := None;
      synced := false;
      isMjpeg := None;
      this.expectedFrameSize := expectedFrameSize;
    }

    /** An assembler fixed to MJPEG. */
    constructor NewMjpeg()
      ensures State() == InitialState(0).(isMjpeg := Some(true))
    {
      frameBuffer := [];
      lastFrameId := None;
      synced := false;
      isMjpeg := Some(true);
      expectedFrameSize := 0;
    }

    /** An assembler fixed to YUY2 frames of width * height * 2 bytes, computed in `u32`. */
    constructor NewYuy2(width: nat, height: nat)
      requires width * height * 2 < U32_LIMIT
      ensures State() == InitialState(width * height * 2).(isMjpeg := Some(false))
    {
      frameBuffer := [];
      lastFrameId := None;
      synced := false;
      isMjpeg := Some(false);
      expectedFrameSize := width * height * 2;
    }

    /** Drops the partial frame and the synchronisation; the format and size are kept. */
    method Reset()
      modifies this
      ensures State() == old(State()).(frameBuffer := [], lastFrameId := None, synced := false)
    {
      frameBuffer := [];
      lastFrameId := None;
      synced := false;
    }

    function BufferLen(): nat
      reads this
    {
      |frameBuffer|
    }

    function IsSynced(): bool
      reads this
    {
      synced
    }

    function DetectedFormat(): Option<bool>
      reads this
    {
      isMjpeg
    }

    method ProcessPacket(packetData: seq<byte>) returns (r: ProcessResult)
      modifies this
      ensures (State(), r) == Step(old(State()), packetData)
    {
      ghost var s0 := State();
      if |packetData| == 0 {
        return Skipped;
      }
      var validatedHeader := ValidateUvcHeader(packetData);
      var headerLen := validatedHeader.GetOr(0);
      var flags := PacketFlags(packetData, validatedHeader, lastFrameId);

      if flags.error {
        assert Step(s0, packetData) == ErrorPacket(s0);
        if isMjpeg.GetOr(false) {
          frameBuffer := [];
          synced := false;
          return Skipped;
        }
        return Skipped;
      }
      assert Step(s0, packetData) == AcceptPacket(s0, packetData, validatedHeader, flags);

      if isMjpeg.None? && |frameBuffer| >= 2 {
        isMjpeg := Some(IsJpegData(frameBuffer));
      }
      ghost var detected := State();
      assert detected == DetectFormat(s0);
      var mjpeg := isMjpeg.GetOr(false);
      r := HandleFidToggle(flags.frameId, mjpeg);
      assert (State(), r) == FidToggle(detected, flags.frameId, mjpeg);
      lastFrameId := Some(flags.frameId);

      if !synced {
        assert AcceptPacket(s0, packetData, validatedHeader, flags) == (State(), Skipped);
        return Skipped;
      }

      ghost var s1 := State();
      AccumulatePayload(packetData, headerLen, validatedHeader.Some?);
      ghost var s2 := State();
      assert s2 == s1.(frameBuffer := s1.frameBuffer + AcceptedPayload(packetData, headerLen, validatedHeader.Some?));
      assert AcceptPacket(s0, packetData, validatedHeader, flags) == Complete(s2, mjpeg, flags.endOfFrame, r);
      r := CompleteFrame(mjpeg, flags.endOfFrame, r);
    }

    /** Frame-boundary handling when the packet's FID differs from the last one. */
    method HandleFidToggle(frameId: bool, mjpeg: bool) returns (r: ProcessResult)
      modifies this
      ensures (State(), r) == FidToggle(old(State()), frameId, mjpeg)
    {
      r := Accumulating;
      if lastFrameId.Some? && frameId != lastFrameId.value {
        if mjpeg {
          r := HandleMjpegFidToggle();
        } else {
          r := HandleYuy2FidToggle();
        }
        synced := true;
      }
    }

    /** The format-specific completion check that ends `process_packet`. */
    method CompleteFrame(mjpeg: bool, endOfFrame: bool, pending: ProcessResult) returns (r: ProcessResult)
      modifies this
      ensures (State(), r) == Complete(old(State()), mjpeg, endOfFrame, pending)
    {
      r := pending;
      if !mjpeg {
        var frame := CheckYuy2FrameComplete();
        if frame.Some? {
          return Frame(frame.value);
        }
      } else if endOfFrame && |frameBuffer| > 0 {
        var frame := ExtractMjpegFrame();
        if frame.Some? {
          return Frame(frame.value);
        }
      }
    }

    method HandleMjpegFidToggle() returns (r: ProcessResult)
      modifies this
      ensures (State(), r) == MjpegFidToggle(old(State()))
    {
      var frameSize := |frameBuffer|;
      if frameSize > 0 && synced {
        var hasJpegMarker := IsJpegData(frameBuffer);
        if hasJpegMarker {
          var frame := frameBuffer;
          frameBuffer := [];
          return Frame(frame);
        }
      }
      frameBuffer := [];
      return Accumulating;
    }

    method HandleYuy2FidToggle() returns (r: ProcessResult)
      modifies this
      ensures (State(), r) == Yuy2FidToggle(old(State()))
    {
      var bufferSize := |frameBuffer|;
      if bufferSize > 0 && synced {
        if !SizeRatioInRange(bufferSize, expectedFrameSize) {
          var correctedSize := RoundToYuy2FrameSize(bufferSize);
          if correctedSize != expectedFrameSize {
            expectedFrameSize := correctedSize;
          }
        }
        var frame := frameBuffer;
        frameBuffer := [];
        return Frame(frame);
      }
      return Accumulating;
    }

    method AccumulatePayload(packetData: seq<byte>, headerLen: nat, hasHeader: bool)
      modifies this
      ensures State() == old(State()).(frameBuffer := old(frameBuffer) + AcceptedPayload(packetData, headerLen, hasHeader))
    {
      if hasHeader {
        if headerLen <= |packetData| {
          var payload := packetData[headerLen..];
          if !ZeroFilled(payload) {
            frameBuffer := frameBuffer + payload;
          }
        }
      } else {
        if !ZeroFilled(packetData) {
          frameBuffer := frameBuffer + packetData;
        }
      }
    }

    method CheckYuy2FrameComplete() returns (frame: Option<seq<byte>>)
      modifies this
      ensures var done := |old(frameBuffer)| >= old(expectedFrameSize) > 0;
              && frame == (if done then Some(old(frameBuffer)[..old(expectedFrameSize)]) else None)
              && State() == old(State()).(frameBuffer := if done then old(frameBuffer)[old(expectedFrameSize)..] else old(frameBuffer))
    {
      var bufferSize := |frameBuffer|;
      var expectedSize := expectedFrameSize;
      if bufferSize >= expectedSize && expectedSize > 0 {
        frame := Some(frameBuffer[..expectedSize]);
        frameBuffer := frameBuffer[expectedSize..];
      } else {
        frame := None;
      }
    }

    method ExtractMjpegFrame() returns (frame: Option<seq<byte>>)
      modifies this
      ensures frame == ExtractMjpeg(old(frameBuffer))
      ensures State() == old(State()).(frameBuffer := [])
    {
      var frameSize := |frameBuffer|;
      if IsJpegData(frameBuffer) {
        frame := Some(frameBuffer);
        frameBuffer := [];
        return;
      }
      var limit := SoiScanLimit(frameSize);
      var j := 0;
      while j < limit
        invariant j <= limit
        invariant frameBuffer == old(frameBuffer)
        invariant SoiSearch(frameBuffer, j, limit) == SoiSearch(frameBuffer, 0, limit)
      {
        if IsJpegData(frameBuffer[j..]) {
          var jpegFrame := frameBuffer[j..];
          frameBuffer := [];
          return Some(jpegFrame);
        }
        j := j + 1;
      }
      frameBuffer := [];
      return None;
    }
  }

  /** `round_to_yuy2_frame_size`: the loop over the table of standard sizes. */
  method RoundToYuy2FrameSize(actualSize: nat) returns (rounded: nat)
    ensures rounded == RoundedFrameSize(actualSize)
  {
    var bestMatch := actualSize;
    var bestDiff := USIZE_MAX;
    var i := 0;
    while i < |FRAME_SIZES|
      invariant i <= |FRAME_SIZES|
      invariant RoundSearch(FRAME_SIZES, actualSize, i, bestMatch, bestDiff) == RoundedFrameSize(actualSize)
    {
      var size := FRAME_SIZES[i];
      var diff := AbsDiff(size, actualSize);
      if diff < bestDiff && diff < size / 20 {
        bestDiff := diff;
        bestMatch := size;
      }
      i := i + 1;
    }
    if bestMatch == actualSize {
      rounded := (actualSize / 2) * 2;
    } else {
      rounded := bestMatch;
    }
  }
}
