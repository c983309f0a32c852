// Properties of one step of the frame assembler (`Step`), and of the helpers
// it is built from: header recognition, format detection, synchronisation,
// accumulation, size-based and marker-based completion, size rounding.

module AssemblerProperties {
  import opened Common
  import opened FrameAssembler

  /** The bytes a result hands to the caller. */
  function FrameBytes(r: ProcessResult): seq<byte>
  {
    if r.Frame? then r.data else []
  }

  /** The header flags of a non-empty packet, as `Step` reads them. */
  function FlagsOf(s: AssemblerState, packet: seq<byte>): Flags
  {
    var header := ValidateUvcHeader(packet);
    PacketFlags(packet, header, s.lastFrameId)
  }

  /** The payload `Step` appends for a packet, once synced. */
  function PayloadOf(packet: seq<byte>): seq<byte>
  {
    var header := ValidateUvcHeader(packet);
    AcceptedPayload(packet, header.GetOr(0), header.Some?)
  }

  // ---------------------------------------------------------------------
  // Header recognition
  // ---------------------------------------------------------------------

  /** A header is recognised exactly when it is at least 2 bytes, EOH is set and its length is 2..12 and fits. */
  lemma HeaderAcceptance(d: seq<byte>)
    ensures ValidateUvcHeader(d).Some? <==>
              |d| >= 2 && d[1] >= 0x80 && 2 <= d[0] <= 12 && d[0] <= |d|
    ensures ValidateUvcHeader(d).Some? ==> ValidateUvcHeader(d).value == d[0]
  {
  }

  /** Only the EOH bit of the flags byte matters: FID, EOF, PTS, SCR, error and reserved bits are ignored. */
  lemma HeaderIgnoresOtherFlagBits(d: seq<byte>, flags: byte)
    requires |d| >= 2
    requires (flags >= 0x80) == (d[1] >= 0x80)
    ensures ValidateUvcHeader(d[1 := flags]) == ValidateUvcHeader(d)
  {
  }

  // ---------------------------------------------------------------------
  // Empty and error packets
  // ---------------------------------------------------------------------

  lemma EmptyPacketSkipped(s: AssemblerState)
    ensures Step(s, []) == (s, Skipped)
  {
  }

  /**
   * A packet whose valid header carries the error bit is skipped; in MJPEG
   * mode the partial frame and the sync are dropped, otherwise nothing changes.
   */
  lemma ErrorPacketSkipped(s: AssemblerState, packet: seq<byte>)
    requires ValidateUvcHeader(packet).Some? && ErrorBit(packet[1])
    ensures Step(s, packet).1 == Skipped
    ensures Step(s, packet).0 ==
              if s.isMjpeg == Some(true) then s.(frameBuffer := [], synced := false) else s
  {
  }

  // ---------------------------------------------------------------------
  // Format detection
  // ---------------------------------------------------------------------

  /**
   * The format is decided at most once: a decided format never changes, and an
   * undecided one becomes "starts with FF D8" of the buffer, only once the
   * buffer holds two bytes.
   */
  lemma FormatAssignedOnce(s: AssemblerState, packet: seq<byte>)
    ensures s.isMjpeg.Some? ==> Step(s, packet).0.isMjpeg == s.isMjpeg
    ensures Step(s, packet).0.isMjpeg != s.isMjpeg ==>
              s.isMjpeg.None? && |s.frameBuffer| >= 2 &&
              Step(s, packet).0.isMjpeg == Some(IsJpegData(s.frameBuffer))
  {
    if |packet| > 0 && !FlagsOf(s, packet).error {
      var d := DetectFormat(s);
      var mjpeg := d.isMjpeg.GetOr(false);
      var t := FidToggle(d, FlagsOf(s, packet).frameId, mjpeg);
      assert t.0.isMjpeg == d.isMjpeg;
    }
  }

  // ---------------------------------------------------------------------
  // Synchronisation
  // ---------------------------------------------------------------------

  /** The assembler becomes synced only on a packet whose FID differs from the last one seen. */
  lemma SyncOnlyOnToggle(s: AssemblerState, packet: seq<byte>)
    requires !s.synced
    requires Step(s, packet).0.synced
    ensures |packet| > 0 && !FlagsOf(s, packet).error
    ensures s.lastFrameId.Some? && FlagsOf(s, packet).frameId != s.lastFrameId.value
  {
  }

  /** While unsynced a packet is skipped and the buffer does not grow. */
  lemma UnsyncedSkips(s: AssemblerState, packet: seq<byte>)
    requires !Step(s, packet).0.synced
    ensures Step(s, packet).1 == Skipped
    ensures Step(s, packet).0.frameBuffer == s.frameBuffer || Step(s, packet).0.frameBuffer == []
  {
  }

  /**
   * After a non-empty packet without the error flag the last FID is that
   * packet's FID, or the previous one (false if none) when it has no header.
   */
  lemma LastFrameIdTracksPacket(s: AssemblerState, packet: seq<byte>)
    requires |packet| > 0 && !FlagsOf(s, packet).error
    ensures ValidateUvcHeader(packet).Some? ==> Step(s, packet).0.lastFrameId == Some(FrameIdBit(packet[1]))
    ensures ValidateUvcHeader(packet).None? ==> Step(s, packet).0.lastFrameId == Some(s.lastFrameId.GetOr(false))
  {
    var d := DetectFormat(s);
    var t := FidToggle(d, FlagsOf(s, packet).frameId, d.isMjpeg.GetOr(false));
    var s1 := t.0.(lastFrameId := Some(FlagsOf(s, packet).frameId));
    if s1.synced {
      var s2 := s1.(frameBuffer := s1.frameBuffer + PayloadOf(packet));
      assert Complete(s2, d.isMjpeg.GetOr(false), FlagsOf(s, packet).endOfFrame, t.1).0.lastFrameId == s2.lastFrameId;
    }
  }

  /** An unsynced assembler holds no data; every step keeps it that way. */
  lemma UnsyncedBufferStaysEmpty(s: AssemblerState, packet: seq<byte>)
    requires !s.synced ==> s.frameBuffer == []
    ensures !Step(s, packet).0.synced ==> Step(s, packet).0.frameBuffer == []
  {
    if |packet| > 0 && !FlagsOf(s, packet).error {
      var d := DetectFormat(s);
      var t := FidToggle(d, FlagsOf(s, packet).frameId, d.isMjpeg.GetOr(false));
      var s1 := t.0.(lastFrameId := Some(FlagsOf(s, packet).frameId));
      if s1.synced {
        var s2 := s1.(frameBuffer := s1.frameBuffer + PayloadOf(packet));
        assert Complete(s2, d.isMjpeg.GetOr(false), FlagsOf(s, packet).endOfFrame, t.1).0.synced;
      }
    }
  }

  // ---------------------------------------------------------------------
  // Accumulation and completion
  // ---------------------------------------------------------------------

  /** Accumulation takes the bytes after the header (or the whole packet), unless zero padding. */
  lemma PayloadIsPacketTail(packet: seq<byte>)
    ensures var tail := if ValidateUvcHeader(packet).Some? then packet[ValidateUvcHeader(packet).value..] else packet;
            PayloadOf(packet) == if ZeroFilled(tail) then [] else tail
  {
  }

  /**
   * YUY2 mode, synced, same FID: the buffer grows by the payload and, once it
   * holds the expected size, exactly that many bytes are drained as the frame;
   * the overflow stays, so old buffer ++ payload == frame ++ new buffer.
   */
  lemma Yuy2SizeCompletion(s: AssemblerState, packet: seq<byte>)
    requires |packet| > 0 && !FlagsOf(s, packet).error
    requires s.synced && DetectFormat(s).isMjpeg != Some(true)
    requires s.lastFrameId == Some(FlagsOf(s, packet).frameId)
    ensures var next := Step(s, packet);
            && s.frameBuffer + PayloadOf(packet) == FrameBytes(next.1) + next.0.frameBuffer
            && (next.1.Frame? <==> |s.frameBuffer + PayloadOf(packet)| >= s.expectedFrameSize > 0)
            && (next.1.Frame? ==> |next.1.data| == s.expectedFrameSize)
            && (!next.1.Frame? ==> next.1 == Accumulating)
            && next.0 == DetectFormat(s).(frameBuffer := next.0.frameBuffer)
  {
    var buffer := s.frameBuffer + PayloadOf(packet);
    var e := s.expectedFrameSize;
    if |buffer| >= e > 0 {
      assert buffer == buffer[..e] + buffer[e..];
    }
  }

  /**
   * Where an MJPEG frame found at end of frame starts: at the first SOI marker
   * among the first 100 offsets; with none there, nothing is extracted.
   */
  lemma {:induction false} ExtractMjpegFindsFirstSoi(buffer: seq<byte>)
    ensures var r := ExtractMjpeg(buffer);
            r.Some? ==>
              var j := |buffer| - |r.value|;
              && 0 <= j < 100 && r.value == buffer[j..] && IsJpegData(r.value)
              && forall k :: 0 <= k < j ==> !IsJpegData(buffer[k..])
    ensures ExtractMjpeg(buffer).None? ==>
              forall k :: 0 <= k < SoiScanLimit(|buffer|) ==> !IsJpegData(buffer[k..])
  {
    if !IsJpegData(buffer) {
      var found := SoiSearch(buffer, 0, SoiScanLimit(|buffer|));
      if found.Some? {
        assert |buffer| - |buffer[found.value..]| == found.value;
      }
    }
  }

  /**
   * MJPEG mode, synced, packet with EOF: the buffer is empty afterwards, and a
   * frame taken at this point begins with the JPEG SOI marker and is a suffix
   * of the accumulated bytes starting within the first 100 offsets.
   */
  lemma MjpegEndOfFrame(s: AssemblerState, packet: seq<byte>)
    requires |packet| > 0 && !FlagsOf(s, packet).error && FlagsOf(s, packet).endOfFrame
    requires s.synced && DetectFormat(s).isMjpeg == Some(true)
    requires s.lastFrameId == Some(FlagsOf(s, packet).frameId)
    requires |s.frameBuffer + PayloadOf(packet)| > 0
    ensures var next := Step(s, packet);
            var buffer := s.frameBuffer + PayloadOf(packet);
            && next.0.frameBuffer == []
            && (next.1.Frame? ==>
                  var j := |buffer| - |next.1.data|;
                  0 <= j < 100 && next.1.data == buffer[j..] && IsJpegData(next.1.data))
            && (!next.1.Frame? ==> next.1 == Accumulating)
  {
    ExtractMjpegFindsFirstSoi(s.frameBuffer + PayloadOf(packet));
  }

  /** Every frame the assembler hands out holds at least one byte. */
  lemma EmittedFramesNonEmpty(s: AssemblerState, packet: seq<byte>)
    ensures Step(s, packet).1.Frame? ==> |Step(s, packet).1.data| > 0
  {
    if |packet| > 0 && !FlagsOf(s, packet).error {
      var d := DetectFormat(s);
      var mjpeg := d.isMjpeg.GetOr(false);
      var t := FidToggle(d, FlagsOf(s, packet).frameId, mjpeg);
      assert t.1.Frame? ==> |t.1.data| > 0;
      var s1 := t.0.(lastFrameId := Some(FlagsOf(s, packet).frameId));
      if s1.synced {
        var buffer := s1.frameBuffer + PayloadOf(packet);
        ExtractMjpegFindsFirstSoi(buffer);
      }
    }
  }

  /**
   * A frame can be lost: when one packet both toggles the FID (handing out the
   * old buffer) and completes a size-based YUY2 frame by itself, only the
   * second frame is returned.
   */
  lemma ToggleFrameOverwritten()
    ensures var s := AssemblerState([1, 2, 3], Some(false), true, Some(false), 4);
            Step(s, [2, 0x81, 9, 9, 9, 9]) ==
              (AssemblerState([], Some(true), true, Some(false), 4), Frame([9, 9, 9, 9]))
  {
    var s := AssemblerState([1, 2, 3], Some(false), true, Some(false), 4);
    var p: seq<byte> := [2, 0x81, 9, 9, 9, 9];
    assert ValidateUvcHeader(p) == Some(2);
    assert FlagsOf(s, p) == Flags(false, true, false);
    assert PayloadOf(p) == [9, 9, 9, 9];
    assert SizeRatioInRange(3, 4);
    assert FidToggle(s, true, false) == (s.(frameBuffer := [], synced := true), Frame([1, 2, 3]));
    var s2 := AssemblerState([9, 9, 9, 9], Some(true), true, Some(false), 4);
    assert s2.frameBuffer[..4] == [9, 9, 9, 9] && s2.frameBuffer[4..] == [];
    assert Complete(s2, false, false, Frame([1, 2, 3])) ==
             (AssemblerState([], Some(true), true, Some(false), 4), Frame([9, 9, 9, 9]));
    assert DetectFormat(s) == s;
    assert AcceptedPayload(p, Some(2).GetOr(0), true) == [9, 9, 9, 9];
    var s1 := AssemblerState([], Some(true), true, Some(false), 4);
    assert s1.frameBuffer + [9, 9, 9, 9] == s2.frameBuffer;
    assert AcceptPacket(s, p, Some(2), Flags(false, true, false)) == Complete(s2, false, false, Frame([1, 2, 3]));
    assert Step(s, p) == AcceptPacket(s, p, Some(2), Flags(false, true, false));
  }

  // ---------------------------------------------------------------------
  // Rounding to a standard frame size
  // ---------------------------------------------------------------------

  predicate NoneTolerated(table: seq<nat>, n: nat, i: nat)
    requires i <= |table|
  {
    forall k :: 0 <= k < i ==> !Tolerated(table[k], n)
  }

  /** Every tolerated entry before index k is strictly farther from n than d. */
  predicate EarlierFarther(table: seq<nat>, n: nat, k: nat, d: nat)
    requires k <= |table|
  {
    forall j :: 0 <= j < k && Tolerated(table[j], n) ==> d < AbsDiff(table[j], n)
  }

  predicate BestSoFar(table: seq<nat>, n: nat, i: nat, bestMatch: nat, bestDiff: nat)
    requires i <= |table|
  {
    && (exists k :: 0 <= k < i && table[k] == bestMatch && EarlierFarther(table, n, k, bestDiff))
    && Tolerated(bestMatch, n) && bestDiff == AbsDiff(bestMatch, n)
    && forall k :: 0 <= k < i && Tolerated(table[k], n) ==> bestDiff <= AbsDiff(table[k], n)
  }

  /** Every standard size is even and its tolerance is far below `usize::MAX`. */
  predicate SaneTable(table: seq<nat>)
  {
    forall k :: 0 <= k < |table| ==> table[k] % 2 == 0 && table[k] / 20 < USIZE_MAX
  }

  lemma {:induction false} RoundSearchCorrect(table: seq<nat>, n: nat, i: nat, bestMatch: nat, bestDiff: nat)
    requires SaneTable(table) && i <= |table|
    requires (bestMatch == n && bestDiff == USIZE_MAX && NoneTolerated(table, n, i)) || BestSoFar(table, n, i, bestMatch, bestDiff)
    ensures var r := RoundSearch(table, n, i, bestMatch, bestDiff);
            && r % 2 == 0
            && (NoneTolerated(table, n, |table|) ==> r == (n / 2) * 2)
            && (!NoneTolerated(table, n, |table|) ==> BestSoFar(table, n, |table|, r, AbsDiff(r, n)))
    decreases |table| - i
  {
    if i < |table| {
      var size := table[i];
      var diff := AbsDiff(size, n);
      if diff < bestDiff && diff < size / 20 {
        assert BestSoFar(table, n, i + 1, size, diff);
        RoundSearchCorrect(table, n, i + 1, size, diff);
      } else {
        if bestMatch == n && bestDiff == USIZE_MAX && NoneTolerated(table, n, i) {
          assert NoneTolerated(table, n, i + 1);
        } else {
          assert BestSoFar(table, n, i + 1, bestMatch, bestDiff);
        }
        RoundSearchCorrect(table, n, i + 1, bestMatch, bestDiff);
      }
    } else if !NoneTolerated(table, n, i) {
      var k :| 0 <= k < i && table[k] == bestMatch;
      assert bestMatch % 2 == 0;
    }
  }

  /**
   * A byte count is rounded to the standard frame size closest to it among
   * those within 5% (strictly less than size / 20); with none within 5%, it
   * is rounded down to even. The result is always even.
   */
  lemma RoundedFrameSizeIsClosestStandard(n: nat)
    ensures RoundedFrameSize(n) % 2 == 0
    ensures (forall k :: 0 <= k < |FRAME_SIZES| ==> !Tolerated(FRAME_SIZES[k], n)) ==>
              RoundedFrameSize(n) == (n / 2) * 2
    ensures (exists k :: 0 <= k < |FRAME_SIZES| && Tolerated(FRAME_SIZES[k], n)) ==>
              && RoundedFrameSize(n) in FRAME_SIZES
              && Tolerated(RoundedFrameSize(n), n)
              && forall k :: 0 <= k < |FRAME_SIZES| && Tolerated(FRAME_SIZES[k], n) ==>
                   AbsDiff(RoundedFrameSize(n), n) <= AbsDiff(FRAME_SIZES[k], n)
  {
    assert SaneTable(FRAME_SIZES);
    RoundSearchCorrect(FRAME_SIZES, n, 0, n, USIZE_MAX);
  }

  /** On a tie the size listed first wins: every tolerated size listed before the result is strictly farther. */
  lemma RoundedFrameSizeFirstOnTie(n: nat)
    requires exists k :: 0 <= k < |FRAME_SIZES| && Tolerated(FRAME_SIZES[k], n)
    ensures exists k :: 0 <= k < |FRAME_SIZES| && FRAME_SIZES[k] == RoundedFrameSize(n) &&
              forall j :: 0 <= j < k && Tolerated(FRAME_SIZES[j], n) ==>
                AbsDiff(RoundedFrameSize(n), n) < AbsDiff(FRAME_SIZES[j], n)
  {
    assert SaneTable(FRAME_SIZES);
    RoundSearchCorrect(FRAME_SIZES, n, 0, n, USIZE_MAX);
  }

  /**
   * 940800 bytes lies 19200 bytes from both 960000 and 921600, within 5% of
   * each: the earlier table entry, 960000, is chosen.
   */
  lemma TieGoesToEarlierSize()
    ensures RoundedFrameSize(940800) == 960000
  {
  }
}
