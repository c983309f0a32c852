// What the assembler makes of the packets the generator produces: a frame
// split into packets comes back out of the assembler whole, for YUY2 by byte
// count and for MJPEG by end of frame, provided no packet payload looks like
// zero padding.

module AssemblyRoundTrip {
  import opened Common
  import opened FrameAssembler
  import opened PacketGenerator

  /** The frame a result carries, as a list of zero or one frames. */
  function Emitted(r: ProcessResult): seq<seq<byte>>
  {
    if r.Frame? then [r.data] else []
  }

  /** A transition function of the assembler: new state and result for one packet. */
  type Transition = (AssemblerState, seq<byte>) -> (AssemblerState, ProcessResult)

  /** Feeding packets one after the other through a transition function: the final state and every frame emitted, in order. */
  function FeedWith(step: Transition, s: AssemblerState, packets: seq<seq<byte>>): (AssemblerState, seq<seq<byte>>)
    decreases |packets|
  {
    if |packets| == 0 then (s, [])
    else
      var next := step(s, packets[0]);
      var rest := FeedWith(step, next.0, packets[1..]);
      (rest.0, Emitted(next.1) + rest.1)
  }

  /** Feeding packets to the assembler, one `process_packet` call each. */
  function Feed(s: AssemblerState, packets: seq<seq<byte>>): (AssemblerState, seq<seq<byte>>)
  {
    FeedWith(Step, s, packets)
  }

  lemma FeedWithCons(step: Transition, s: AssemblerState, packet: seq<byte>, rest: seq<seq<byte>>)
    ensures var next := step(s, packet);
            var after := FeedWith(step, next.0, rest);
            FeedWith(step, s, [packet] + rest) == (after.0, Emitted(next.1) + after.1)
  {
    assert ([packet] + rest)[0] == packet;
    assert ([packet] + rest)[1..] == rest;
  }

  lemma FeedCons(s: AssemblerState, packet: seq<byte>, rest: seq<seq<byte>>)
    ensures var step := Step(s, packet);
            var after := Feed(step.0, rest);
            Feed(s, [packet] + rest) == (after.0, Emitted(step.1) + after.1)
  {
    FeedWithCons(Step, s, packet, rest);
  }

  /** Feeding two packet lists in turn is feeding their concatenation, whatever the transition function. */
  lemma {:induction false} FeedWithAppend(step: Transition, s: AssemblerState, a: seq<seq<byte>>, b: seq<seq<byte>>)
    ensures var first := FeedWith(step, s, a);
            var second := FeedWith(step, first.0, b);
            FeedWith(step, s, a + b) == (second.0, first.1 + second.1)
    decreases |a|
  {
    if |a| == 0 {
      assert a + b == b;
      assert [] + FeedWith(step, s, b).1 == FeedWith(step, s, b).1;
    } else {
      var next := step(s, a[0]);
      assert a + b == [a[0]] + (a[1..] + b);
      FeedWithCons(step, s, a[0], a[1..] + b);
      FeedWithCons(step, s, a[0], a[1..]);
      assert [a[0]] + a[1..] == a;
      FeedWithAppend(step, next.0, a[1..], b);
      var first := FeedWith(step, next.0, a[1..]);
      var second := FeedWith(step, first.0, b);
      assert Emitted(next.1) + (first.1 + second.1) == (Emitted(next.1) + first.1) + second.1;
    }
  }

  /** Feeding two packet lists to the assembler in turn is feeding their concatenation. */
  lemma FeedAppend(s: AssemblerState, a: seq<seq<byte>>, b: seq<seq<byte>>)
    ensures var first := Feed(s, a);
            var second := Feed(first.0, b);
            Feed(s, a + b) == (second.0, first.1 + second.1)
  {
    FeedWithAppend(Step, s, a, b);
  }

  /** Feeding a frame's packets: its first packet, then the packets of the rest. */
  lemma FeedFirstPacket(s: AssemblerState, frame: seq<byte>, maxPayload: nat, fid: bool)
    requires maxPayload > 0 && |frame| > 0
    ensures var n := Min(|frame|, maxPayload);
            var step := Step(s, ToBytes(Minimal(fid, n >= |frame|)) + frame[..n]);
            var after := Feed(step.0, Packetize(frame[n..], maxPayload, fid));
            Feed(s, Packetize(frame, maxPayload, fid)) == (after.0, Emitted(step.1) + after.1)
  {
    var n := Min(|frame|, maxPayload);
    PacketizeUnfold(frame, maxPayload, fid);
    FeedCons(s, ToBytes(Minimal(fid, n >= |frame|)) + frame[..n], Packetize(frame[n..], maxPayload, fid));
  }

  /** No packet payload (after its 2-byte header) starts like zero padding. */
  predicate NoPaddedPayload(packets: seq<seq<byte>>)
  {
    forall i :: 0 <= i < |packets| ==> |packets[i]| >= 2 && !ZeroFilled(packets[i][2..])
  }

  /** Nowhere in the data do more than eight bytes follow a run of eight zeros. */
  predicate NoZeroRun(data: seq<byte>)
  {
    forall i :: 0 <= i < |data| ==> !ZeroFilled(data[i..])
  }

  /** Data without a padding-like zero run gives packets whose payloads are all accepted. */
  lemma {:induction false} NoZeroRunNoPadding(frame: seq<byte>, maxPayload: nat, fid: bool)
    requires maxPayload > 0 && NoZeroRun(frame)
    ensures NoPaddedPayload(Packetize(frame, maxPayload, fid))
    decreases |frame|
  {
    if |frame| > 0 {
      var n := Min(|frame|, maxPayload);
      var first := ToBytes(Minimal(fid, n >= |frame|)) + frame[..n];
      var rest := Packetize(frame[n..], maxPayload, fid);
      assert Packetize(frame, maxPayload, fid) == [first] + rest;
      assert first[2..] == frame[..n];
      ZeroFilledPrefix(frame, n);
      assert frame[0..] == frame;
      forall i | 0 <= i < |frame[n..]| ensures !ZeroFilled(frame[n..][i..]) {
        assert frame[n..][i..] == frame[n + i..];
      }
      NoZeroRunNoPadding(frame[n..], maxPayload, fid);
      assert NoPaddedPayload(rest);
    }
  }

  /** Data that starts with a padding-like prefix is padding-like itself. */
  lemma ZeroFilledPrefix(data: seq<byte>, n: nat)
    requires n <= |data|
    ensures ZeroFilled(data[..n]) ==> ZeroFilled(data)
  {
    if ZeroFilled(data[..n]) {
      forall i | 0 <= i < 8 ensures data[i] == 0 {
        assert data[..n][i] == data[i];
      }
    }
  }

  /** The first packet of a frame, and what the absence of padded payloads says about it and the rest. */
  lemma PacketizeUnfold(frame: seq<byte>, maxPayload: nat, fid: bool)
    requires maxPayload > 0 && |frame| > 0
    ensures var n := Min(|frame|, maxPayload);
            Packetize(frame, maxPayload, fid)
              == [ToBytes(Minimal(fid, n >= |frame|)) + frame[..n]] + Packetize(frame[n..], maxPayload, fid)
    ensures var n := Min(|frame|, maxPayload);
            NoPaddedPayload(Packetize(frame, maxPayload, fid)) ==>
              !ZeroFilled(frame[..n]) && NoPaddedPayload(Packetize(frame[n..], maxPayload, fid))
  {
    var n := Min(|frame|, maxPayload);
    var ps := Packetize(frame, maxPayload, fid);
    var first := ToBytes(Minimal(fid, n >= |frame|)) + frame[..n];
    assert ps[0] == first;
    assert first[2..] == frame[..n];
    assert ps[1..] == Packetize(frame[n..], maxPayload, fid);
    if NoPaddedPayload(ps) {
      NoPaddedPayloadTail(ps);
    }
  }

  /** The tail of a packet list without padded payloads has none either. */
  lemma NoPaddedPayloadTail(packets: seq<seq<byte>>)
    requires |packets| > 0 && NoPaddedPayload(packets)
    ensures NoPaddedPayload(packets[1..])
  {
    forall i | 0 <= i < |packets[1..]|
      ensures |packets[1..][i]| >= 2 && !ZeroFilled(packets[1..][i][2..])
    {
      assert packets[1..][i] == packets[i + 1];
    }
  }

  /**
   * A generated packet continuing the current frame (same FID, assembler
   * synced, format known) is appended whole and then checked for completion.
   */
  lemma ContinuationStep(s: AssemblerState, fid: bool, eof: bool, chunk: seq<byte>)
    requires s.isMjpeg.Some? && s.synced && s.lastFrameId == Some(fid)
    requires |chunk| > 0 && !ZeroFilled(chunk)
    ensures Step(s, ToBytes(Minimal(fid, eof)) + chunk)
            == Complete(s.(frameBuffer := s.frameBuffer + chunk), s.isMjpeg.value, eof, Accumulating)
  {
    var packet := ToBytes(Minimal(fid, eof)) + chunk;
    HeaderRoundTrip(Minimal(fid, eof), chunk);
    var flags := PacketFlags(packet, Some(2), s.lastFrameId);
    assert flags == Flags(eof, fid, false);
    assert DetectFormat(s) == s;
    assert FidToggle(s, fid, s.isMjpeg.value) == (s, Accumulating);
    assert s.(lastFrameId := Some(fid)) == s;
    assert AcceptedPayload(packet, 2, true) == chunk;
    assert Step(s, packet) == AcceptPacket(s, packet, Some(2), flags);
  }

  /**
   * The first packet of a new frame, arriving at an assembler with an empty
   * buffer that is either synced or sees the FID change, syncs the assembler
   * and starts the buffer with the packet's payload.
   */
  lemma FirstPacketStep(s: AssemblerState, fid: bool, eof: bool, chunk: seq<byte>)
    requires s.isMjpeg.Some? && s.frameBuffer == []
    requires s.synced || s.lastFrameId == Some(!fid)
    requires |chunk| > 0 && !ZeroFilled(chunk)
    ensures Step(s, ToBytes(Minimal(fid, eof)) + chunk)
            == Complete(s.(frameBuffer := chunk, lastFrameId := Some(fid), synced := true), s.isMjpeg.value, eof, Accumulating)
  {
    var packet := ToBytes(Minimal(fid, eof)) + chunk;
    HeaderRoundTrip(Minimal(fid, eof), chunk);
    var flags := PacketFlags(packet, Some(2), s.lastFrameId);
    assert flags == Flags(eof, fid, false);
    assert DetectFormat(s) == s;
    var toggled := FidToggle(s, fid, s.isMjpeg.value);
    if s.lastFrameId == Some(!fid) {
      if s.isMjpeg.value {
        assert MjpegFidToggle(s) == (s, Accumulating);
      } else {
        assert Yuy2FidToggle(s) == (s, Accumulating);
      }
      assert toggled == (s.(synced := true), Accumulating);
    } else {
      assert toggled == (s, Accumulating);
    }
    var s1 := toggled.0.(lastFrameId := Some(fid));
    assert s1 == s.(lastFrameId := Some(fid), synced := true);
    assert AcceptedPayload(packet, 2, true) == chunk;
    assert s1.frameBuffer + chunk == chunk;
    assert AcceptPacket(s, packet, Some(2), flags)
           == Complete(s1.(frameBuffer := chunk), s.isMjpeg.GetOr(false), eof, Accumulating);
    assert Step(s, packet) == AcceptPacket(s, packet, Some(2), flags);
  }

  /**
   * Feeding the rest of a frame to a synced assembler in the middle of it:
   * the first packet's payload is appended and checked for completion, then
   * the remaining packets follow.
   */
  lemma ContinuationFeed(s: AssemblerState, rest: seq<byte>, maxPayload: nat, fid: bool)
    requires maxPayload > 0 && |rest| > 0
    requires s.isMjpeg.Some? && s.synced && s.lastFrameId == Some(fid)
    requires NoPaddedPayload(Packetize(rest, maxPayload, fid))
    ensures var n := Min(|rest|, maxPayload);
            var done := Complete(s.(frameBuffer := s.frameBuffer + rest[..n]), s.isMjpeg.value, n >= |rest|, Accumulating);
            var after := Feed(done.0, Packetize(rest[n..], maxPayload, fid));
            Feed(s, Packetize(rest, maxPayload, fid)) == (after.0, Emitted(done.1) + after.1)
    ensures NoPaddedPayload(Packetize(rest[Min(|rest|, maxPayload)..], maxPayload, fid))
  {
    var n := Min(|rest|, maxPayload);
    PacketizeUnfold(rest, maxPayload, fid);
    FeedFirstPacket(s, rest, maxPayload, fid);
    ContinuationStep(s, fid, n >= |rest|, rest[..n]);
  }

  /**
   * Feeding a whole frame to an assembler with an empty buffer that is synced
   * or sees the FID change: the first packet syncs it and starts the buffer,
   * then the remaining packets follow.
   */
  lemma StartFeed(s: AssemblerState, frame: seq<byte>, maxPayload: nat, fid: bool) returns (n: nat, started: AssemblerState)
    requires maxPayload > 0 && |frame| > 0
    requires s.isMjpeg.Some? && s.frameBuffer == []
    requires s.synced || s.lastFrameId == Some(!fid)
    requires NoPaddedPayload(Packetize(frame, maxPayload, fid))
    ensures n == Min(|frame|, maxPayload) && 0 < n <= |frame|
    ensures started == s.(frameBuffer := frame[..n], lastFrameId := Some(fid), synced := true)
    ensures Feed(s, Packetize(frame, maxPayload, fid))
            == FeedAfter(Complete(started, s.isMjpeg.value, n >= |frame|, Accumulating), Packetize(frame[n..], maxPayload, fid))
    ensures NoPaddedPayload(Packetize(frame[n..], maxPayload, fid))
  {
    n := Min(|frame|, maxPayload);
    started := s.(frameBuffer := frame[..n], lastFrameId := Some(fid), synced := true);
    PacketizeUnfold(frame, maxPayload, fid);
    FeedFirstPacket(s, frame, maxPayload, fid);
    FirstPacketStep(s, fid, n >= |frame|, frame[..n]);
  }

  /** The outcome of one packet's transition followed by feeding the remaining packets. */
  function FeedAfter(done: (AssemblerState, ProcessResult), packets: seq<seq<byte>>): (AssemblerState, seq<seq<byte>>)
  {
    var after := Feed(done.0, packets);
    (after.0, Emitted(done.1) + after.1)
  }

  /** YUY2 completion on a buffer not beyond the expected size: the whole buffer is emitted exactly at that size. */
  lemma Yuy2CompleteUpTo(t: AssemblerState, eof: bool)
    requires 0 < |t.frameBuffer| <= t.expectedFrameSize
    ensures Complete(t, false, eof, Accumulating) ==
              if |t.frameBuffer| == t.expectedFrameSize then (t.(frameBuffer := []), Frame(t.frameBuffer))
              else (t, Accumulating)
  {
    var b := t.frameBuffer;
    if |b| == t.expectedFrameSize {
      assert b[t.expectedFrameSize..] == [] && b[..t.expectedFrameSize] == b;
    }
  }

  /** MJPEG completion: nothing before end of frame, the whole buffer at end of frame when it starts with SOI. */
  lemma MjpegCompleteAt(t: AssemblerState, eof: bool)
    requires eof ==> IsJpegData(t.frameBuffer)
    ensures Complete(t, true, eof, Accumulating) ==
              if eof then (t.(frameBuffer := []), Frame(t.frameBuffer)) else (t, Accumulating)
  {
  }

  /** Feeding no packets changes nothing and emits nothing. */
  lemma FeedNothing(s: AssemblerState, rest: seq<byte>, maxPayload: nat, fid: bool)
    requires |rest| == 0
    ensures Feed(s, Packetize(rest, maxPayload, fid)) == (s, [])
  {
  }

  /**
   * The assembler is synced to frame `fid`, holds the beginning of a frame of
   * the given format, and `rest` is the remainder of that frame, packetized
   * without padding-like payloads: for YUY2 not beyond the expected size,
   * for MJPEG a buffer that then starts with SOI.
   */
  predicate MidFrame(s: AssemblerState, rest: seq<byte>, maxPayload: nat, fid: bool, mjpeg: bool)
  {
    && maxPayload > 0 && |rest| > 0
    && s.isMjpeg == Some(mjpeg) && s.synced && s.lastFrameId == Some(fid)
    && (if mjpeg then IsJpegData(s.frameBuffer + rest) else |s.frameBuffer| + |rest| <= s.expectedFrameSize)
    && NoPaddedPayload(Packetize(rest, maxPayload, fid))
  }

  /**
   * A packet in the middle of a frame (more data follows it) only grows the
   * buffer: for YUY2 the expected size is not reached yet, and MJPEG waits
   * for end of frame.
   */
  lemma MiddlePacket(s: AssemblerState, rest: seq<byte>, maxPayload: nat, fid: bool, mjpeg: bool)
    requires MidFrame(s, rest, maxPayload, fid, mjpeg) && maxPayload < |rest|
    ensures Feed(s, Packetize(rest, maxPayload, fid))
            == Feed(s.(frameBuffer := s.frameBuffer + rest[..maxPayload]), Packetize(rest[maxPayload..], maxPayload, fid))
    ensures MidFrame(s.(frameBuffer := s.frameBuffer + rest[..maxPayload]), rest[maxPayload..], maxPayload, fid, mjpeg)
  {
    MiddlePacketFeed(s, rest, maxPayload, fid);
    MidFrameTail(s, rest, maxPayload, fid, mjpeg);
  }

  /** Feeding a middle packet appends its payload to the buffer and emits nothing. */
  lemma MiddlePacketFeed(s: AssemblerState, rest: seq<byte>, maxPayload: nat, fid: bool)
    requires 0 < maxPayload < |rest|
    requires s.isMjpeg.Some? && s.synced && s.lastFrameId == Some(fid)
    requires !s.isMjpeg.value ==> |s.frameBuffer| + |rest| <= s.expectedFrameSize
    requires NoPaddedPayload(Packetize(rest, maxPayload, fid))
    ensures Feed(s, Packetize(rest, maxPayload, fid))
            == Feed(s.(frameBuffer := s.frameBuffer + rest[..maxPayload]), Packetize(rest[maxPayload..], maxPayload, fid))
  {
    ContinuationFeed(s, rest, maxPayload, fid);
    var grown := s.(frameBuffer := s.frameBuffer + rest[..maxPayload]);
    var done := Complete(grown, s.isMjpeg.value, false, Accumulating);
    assert done == (grown, Accumulating);
    var after := Feed(grown, Packetize(rest[maxPayload..], maxPayload, fid));
    assert Emitted(done.1) + after.1 == after.1;
  }

  /** Moving the first packet's payload into the buffer keeps the assembler in the middle of the same frame. */
  lemma MidFrameTail(s: AssemblerState, rest: seq<byte>, maxPayload: nat, fid: bool, mjpeg: bool)
    requires MidFrame(s, rest, maxPayload, fid, mjpeg) && maxPayload < |rest|
    ensures MidFrame(s.(frameBuffer := s.frameBuffer + rest[..maxPayload]), rest[maxPayload..], maxPayload, fid, mjpeg)
  {
    PacketizeUnfold(rest, maxPayload, fid);
    assert s.frameBuffer + rest[..maxPayload] + rest[maxPayload..] == s.frameBuffer + rest;
  }

  /** What the rest of a YUY2 frame does to an assembler holding its beginning. */
  function Yuy2Outcome(s: AssemblerState, rest: seq<byte>): (AssemblerState, seq<seq<byte>>)
  {
    if |s.frameBuffer| + |rest| == s.expectedFrameSize then (s.(frameBuffer := []), [s.frameBuffer + rest])
    else (s.(frameBuffer := s.frameBuffer + rest), [])
  }

  /** The outcome depends only on the whole of buffer and remainder, not where they are split. */
  lemma Yuy2OutcomeShift(s: AssemblerState, rest: seq<byte>, k: nat)
    requires k <= |rest|
    ensures Yuy2Outcome(s.(frameBuffer := s.frameBuffer + rest[..k]), rest[k..]) == Yuy2Outcome(s, rest)
  {
    assert s.frameBuffer + rest[..k] + rest[k..] == s.frameBuffer + rest;
  }

  /** The last packet of a YUY2 frame: the frame is emitted if the buffer then holds exactly the expected size. */
  lemma Yuy2LastPacket(s: AssemblerState, rest: seq<byte>, maxPayload: nat, fid: bool)
    requires MidFrame(s, rest, maxPayload, fid, false) && |rest| <= maxPayload
    ensures Feed(s, Packetize(rest, maxPayload, fid)) == Yuy2Outcome(s, rest)
  {
    ContinuationFeed(s, rest, maxPayload, fid);
    assert rest[..|rest|] == rest;
    var grown := s.(frameBuffer := s.frameBuffer + rest);
    Yuy2CompleteUpTo(grown, true);
    var done := Complete(grown, false, true, Accumulating);
    FeedNothing(done.0, rest[|rest|..], maxPayload, fid);
    var after := Feed(done.0, Packetize(rest[|rest|..], maxPayload, fid));
    assert Emitted(done.1) + after.1 == Emitted(done.1);
  }

  /**
   * The rest of a YUY2 frame, fed to a synced assembler that already holds
   * its beginning: the buffer grows by the packets' payloads and the frame is
   * emitted exactly when the expected size is reached.
   */
  lemma {:induction false} Yuy2Continuation(s: AssemblerState, rest: seq<byte>, maxPayload: nat, fid: bool)
    requires MidFrame(s, rest, maxPayload, fid, false)
    ensures Feed(s, Packetize(rest, maxPayload, fid)) == Yuy2Outcome(s, rest)
    decreases |rest|
  {
    if |rest| <= maxPayload {
      Yuy2LastPacket(s, rest, maxPayload, fid);
    } else {
      MiddlePacket(s, rest, maxPayload, fid, false);
      Yuy2Continuation(s.(frameBuffer := s.frameBuffer + rest[..maxPayload]), rest[maxPayload..], maxPayload, fid);
      Yuy2OutcomeShift(s, rest, maxPayload);
    }
  }

  /**
   * A generated YUY2 frame of exactly the expected size, fed to an assembler
   * with an empty buffer that is synced or sees the FID change at the frame's
   * first packet, comes out as one frame, byte for byte.
   */
  lemma GeneratedYuy2FrameAssembled(s: AssemblerState, frame: seq<byte>, maxPayload: nat, fid: bool)
    requires maxPayload > 0
    requires s.isMjpeg == Some(false) && s.frameBuffer == [] && s.expectedFrameSize == |frame| > 0
    requires s.synced || s.lastFrameId == Some(!fid)
    requires NoPaddedPayload(Packetize(frame, maxPayload, fid))
    ensures Feed(s, Packetize(frame, maxPayload, fid)) == (s.(lastFrameId := Some(fid), synced := true), [frame])
  {
    if |frame| <= maxPayload {
      Yuy2FrameInOnePacket(s, frame, maxPayload, fid);
    } else {
      Yuy2FrameInSeveralPackets(s, frame, maxPayload, fid);
    }
  }

  /** The single-packet case: the first packet completes the frame. */
  lemma Yuy2FrameInOnePacket(s: AssemblerState, frame: seq<byte>, maxPayload: nat, fid: bool)
    requires 0 < |frame| <= maxPayload
    requires s.isMjpeg == Some(false) && s.frameBuffer == [] && s.expectedFrameSize == |frame|
    requires s.synced || s.lastFrameId == Some(!fid)
    requires NoPaddedPayload(Packetize(frame, maxPayload, fid))
    ensures Feed(s, Packetize(frame, maxPayload, fid)) == (s.(lastFrameId := Some(fid), synced := true), [frame])
  {
    var n, started := StartFeed(s, frame, maxPayload, fid);
    assert frame[..n] == frame;
    Yuy2CompleteUpTo(started, true);
    var done := Complete(started, false, true, Accumulating);
    assert done == (s.(lastFrameId := Some(fid), synced := true), Frame(frame));
    FeedNothing(done.0, frame[n..], maxPayload, fid);
    assert Feed(done.0, Packetize(frame[n..], maxPayload, fid)) == (done.0, []);
    assert Emitted(done.1) == [frame] && [frame] + [] == [frame];
    assert FeedAfter(done, Packetize(frame[n..], maxPayload, fid)) == (done.0, [frame]);
  }

  /** The multi-packet case: the first packet only starts the frame, the continuation completes it. */
  lemma Yuy2FrameInSeveralPackets(s: AssemblerState, frame: seq<byte>, maxPayload: nat, fid: bool)
    requires 0 < maxPayload < |frame|
    requires s.isMjpeg == Some(false) && s.frameBuffer == [] && s.expectedFrameSize == |frame|
    requires s.synced || s.lastFrameId == Some(!fid)
    requires NoPaddedPayload(Packetize(frame, maxPayload, fid))
    ensures Feed(s, Packetize(frame, maxPayload, fid)) == (s.(lastFrameId := Some(fid), synced := true), [frame])
  {
    var n, started := StartFeed(s, frame, maxPayload, fid);
    Yuy2CompleteUpTo(started, false);
    var done := Complete(started, false, false, Accumulating);
    assert done == (started, Accumulating);
    Yuy2Continuation(started, frame[n..], maxPayload, fid);
    Yuy2StartedOutcome(s, frame, n, fid);
    var after := Feed(started, Packetize(frame[n..], maxPayload, fid));
    assert [] + after.1 == after.1;
    assert FeedAfter(done, Packetize(frame[n..], maxPayload, fid)) == after;
  }

  /** A frame started with its first n bytes and continued with the rest comes out whole. */
  lemma Yuy2StartedOutcome(s: AssemblerState, frame: seq<byte>, n: nat, fid: bool)
    requires n <= |frame| == s.expectedFrameSize && s.frameBuffer == []
    ensures Yuy2Outcome(s.(frameBuffer := frame[..n], lastFrameId := Some(fid), synced := true), frame[n..])
            == (s.(lastFrameId := Some(fid), synced := true), [frame])
  {
    assert frame[..n] + frame[n..] == frame;
  }

  /** The last packet of a JPEG carries end of frame: the whole buffer is emitted. */
  lemma MjpegLastPacket(s: AssemblerState, rest: seq<byte>, maxPayload: nat, fid: bool)
    requires MidFrame(s, rest, maxPayload, fid, true) && |rest| <= maxPayload
    ensures Feed(s, Packetize(rest, maxPayload, fid)) == (s.(frameBuffer := []), [s.frameBuffer + rest])
  {
    ContinuationFeed(s, rest, maxPayload, fid);
    assert rest[..|rest|] == rest;
    var grown := s.(frameBuffer := s.frameBuffer + rest);
    MjpegCompleteAt(grown, true);
    var done := Complete(grown, true, true, Accumulating);
    FeedNothing(done.0, rest[|rest|..], maxPayload, fid);
    var after := Feed(done.0, Packetize(rest[|rest|..], maxPayload, fid));
    assert Emitted(done.1) + after.1 == Emitted(done.1);
  }

  /** Where buffer and remainder are split does not change what the whole JPEG is. */
  lemma MjpegOutcomeShift(s: AssemblerState, rest: seq<byte>, k: nat)
    requires k <= |rest|
    ensures var grown := s.(frameBuffer := s.frameBuffer + rest[..k]);
            (grown.(frameBuffer := []), [grown.frameBuffer + rest[k..]]) == (s.(frameBuffer := []), [s.frameBuffer + rest])
  {
    assert s.frameBuffer + rest[..k] + rest[k..] == s.frameBuffer + rest;
  }

  /**
   * The rest of a JPEG, fed to a synced MJPEG assembler that holds its
   * beginning: nothing is emitted until the end-of-frame packet, which
   * emits the whole JPEG and empties the buffer.
   */
  lemma {:induction false} MjpegContinuation(s: AssemblerState, rest: seq<byte>, maxPayload: nat, fid: bool)
    requires MidFrame(s, rest, maxPayload, fid, true)
    ensures Feed(s, Packetize(rest, maxPayload, fid)) == (s.(frameBuffer := []), [s.frameBuffer + rest])
    decreases |rest|
  {
    if |rest| <= maxPayload {
      MjpegLastPacket(s, rest, maxPayload, fid);
    } else {
      MiddlePacket(s, rest, maxPayload, fid, true);
      MjpegContinuation(s.(frameBuffer := s.frameBuffer + rest[..maxPayload]), rest[maxPayload..], maxPayload, fid);
      MjpegOutcomeShift(s, rest, maxPayload);
    }
  }

  /**
   * A generated JPEG fed to an MJPEG assembler with an empty buffer that is
   * synced or sees the FID change comes out as one frame, byte for byte, at
   * its end-of-frame packet.
   */
  lemma GeneratedJpegAssembled(s: AssemblerState, jpeg: seq<byte>, maxPayload: nat, fid: bool)
    requires maxPayload > 0 && IsJpegData(jpeg)
    requires s.isMjpeg == Some(true) && s.frameBuffer == []
    requires s.synced || s.lastFrameId == Some(!fid)
    requires NoPaddedPayload(Packetize(jpeg, maxPayload, fid))
    ensures Feed(s, Packetize(jpeg, maxPayload, fid)) == (s.(lastFrameId := Some(fid), synced := true), [jpeg])
  {
    if |jpeg| <= maxPayload {
      JpegInOnePacket(s, jpeg, maxPayload, fid);
    } else {
      JpegInSeveralPackets(s, jpeg, maxPayload, fid);
    }
  }

  /** The single-packet case: the first packet carries end of frame and the whole JPEG. */
  lemma JpegInOnePacket(s: AssemblerState, jpeg: seq<byte>, maxPayload: nat, fid: bool)
    requires |jpeg| <= maxPayload && IsJpegData(jpeg)
    requires s.isMjpeg == Some(true) && s.frameBuffer == []
    requires s.synced || s.lastFrameId == Some(!fid)
    requires NoPaddedPayload(Packetize(jpeg, maxPayload, fid))
    ensures Feed(s, Packetize(jpeg, maxPayload, fid)) == (s.(lastFrameId := Some(fid), synced := true), [jpeg])
  {
    var n, started := StartFeed(s, jpeg, maxPayload, fid);
    assert jpeg[..n] == jpeg;
    MjpegCompleteAt(started, true);
    var done := Complete(started, true, true, Accumulating);
    assert done == (s.(lastFrameId := Some(fid), synced := true), Frame(jpeg));
    FeedNothing(done.0, jpeg[n..], maxPayload, fid);
    assert Emitted(done.1) == [jpeg] && [jpeg] + [] == [jpeg];
    assert FeedAfter(done, Packetize(jpeg[n..], maxPayload, fid)) == (done.0, [jpeg]);
  }

  /** The multi-packet case: the first packet starts the buffer, the end-of-frame packet emits the JPEG. */
  lemma JpegInSeveralPackets(s: AssemblerState, jpeg: seq<byte>, maxPayload: nat, fid: bool)
    requires 0 < maxPayload < |jpeg| && IsJpegData(jpeg)
    requires s.isMjpeg == Some(true) && s.frameBuffer == []
    requires s.synced || s.lastFrameId == Some(!fid)
    requires NoPaddedPayload(Packetize(jpeg, maxPayload, fid))
    ensures Feed(s, Packetize(jpeg, maxPayload, fid)) == (s.(lastFrameId := Some(fid), synced := true), [jpeg])
  {
    var n, started := StartFeed(s, jpeg, maxPayload, fid);
    MjpegCompleteAt(started, false);
    var done := Complete(started, true, false, Accumulating);
    assert done == (started, Accumulating);
    JpegStartedOutcome(s, jpeg, n, fid);
    MjpegContinuation(started, jpeg[n..], maxPayload, fid);
    var after := Feed(started, Packetize(jpeg[n..], maxPayload, fid));
    assert [] + after.1 == after.1;
    assert FeedAfter(done, Packetize(jpeg[n..], maxPayload, fid)) == after;
  }

  /** A JPEG started with its first n bytes is still a JPEG in the buffer, and the continuation's outcome is the whole of it. */
  lemma JpegStartedOutcome(s: AssemblerState, jpeg: seq<byte>, n: nat, fid: bool)
    requires n <= |jpeg| && IsJpegData(jpeg) && s.frameBuffer == []
    ensures var started := s.(frameBuffer := jpeg[..n], lastFrameId := Some(fid), synced := true);
            && IsJpegData(started.frameBuffer + jpeg[n..])
            && (started.(frameBuffer := []), [started.frameBuffer + jpeg[n..]]) == (s.(lastFrameId := Some(fid), synced := true), [jpeg])
  {
    assert jpeg[..n] + jpeg[n..] == jpeg;
  }

  /** The generator's minimal JPEG fits one default-size packet, whose payload is accepted. */
  lemma MinimalJpegOnePacket(color: Yuv, maxPayload: nat, fid: bool)
    requires maxPayload >= 182
    ensures Packetize(MinimalJpeg(color), maxPayload, fid) == [ToBytes(Minimal(fid, true)) + MinimalJpeg(color)]
    ensures NoPaddedPayload(Packetize(MinimalJpeg(color), maxPayload, fid))
  {
    var jpeg := MinimalJpeg(color);
    assert jpeg[..182] == jpeg && jpeg[182..] == [];
    var packet := ToBytes(Minimal(fid, true)) + jpeg;
    assert packet[2..] == jpeg;
  }

  /**
   * Packets of a frame whose FID the unsynced assembler has already seen (or
   * that start the stream) are all skipped and leave only the FID behind.
   */
  lemma {:induction false} UnsyncedFrameSkipped(s: AssemblerState, frame: seq<byte>, maxPayload: nat, fid: bool)
    requires maxPayload > 0 && |frame| > 0
    requires !s.synced && s.frameBuffer == []
    requires s.lastFrameId == None || s.lastFrameId == Some(fid)
    ensures Feed(s, Packetize(frame, maxPayload, fid)) == (s.(lastFrameId := Some(fid)), [])
    decreases |frame|
  {
    var n := Min(|frame|, maxPayload);
    var first := ToBytes(Minimal(fid, n >= |frame|)) + frame[..n];
    var tail := Packetize(frame[n..], maxPayload, fid);
    PacketizeUnfold(frame, maxPayload, fid);
    FeedFirstPacket(s, frame, maxPayload, fid);
    HeaderRoundTrip(Minimal(fid, n >= |frame|), frame[..n]);
    var flags := PacketFlags(first, Some(2), s.lastFrameId);
    assert flags == Flags(n >= |frame|, fid, false);
    assert DetectFormat(s) == s;
    assert FidToggle(s, fid, s.isMjpeg.GetOr(false)) == (s, Accumulating);
    assert Step(s, first) == AcceptPacket(s, first, Some(2), flags);
    var skipped := s.(lastFrameId := Some(fid));
    assert Step(s, first) == (skipped, Skipped);
    var after := Feed(skipped, tail);
    assert Feed(s, Packetize(frame, maxPayload, fid)) == (after.0, Emitted(Skipped) + after.1);
    if n < |frame| {
      UnsyncedFrameSkipped(skipped, frame[n..], maxPayload, fid);
      assert skipped.(lastFrameId := Some(fid)) == skipped;
    } else {
      assert tail == [];
    }
    assert after == (skipped, []);
    assert Emitted(Skipped) + after.1 == [];
  }

  /**
   * A fresh YUY2 assembler fed the generator's first two frames (FID true,
   * then false) drops the first, which it cannot know the start of, and
   * emits the second exactly.
   */
  lemma FreshAssemblerSyncsOnSecondFrame(e: nat, frame1: seq<byte>, frame2: seq<byte>, maxPayload: nat)
    requires maxPayload > 0 && |frame1| > 0 && |frame2| == e > 0
    requires NoPaddedPayload(Packetize(frame2, maxPayload, false))
    ensures var s := InitialState(e).(isMjpeg := Some(false));
            Feed(s, Packetize(frame1, maxPayload, true) + Packetize(frame2, maxPayload, false)).1 == [frame2]
  {
    var s := InitialState(e).(isMjpeg := Some(false));
    FeedAppend(s, Packetize(frame1, maxPayload, true), Packetize(frame2, maxPayload, false));
    UnsyncedFrameSkipped(s, frame1, maxPayload, true);
    GeneratedYuy2FrameAssembled(s.(lastFrameId := Some(true)), frame2, maxPayload, false);
  }
}
