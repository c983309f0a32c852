// Replay of a legacy capture file: the record reader, the duration of a
// capture, the choice of assembler, and the replay of every packet through
// one assembler, eagerly or one frame at a time.

module Replay {
  import opened Common
  import opened FrameAssembler
  import AssemblyRoundTrip
  import Capture
  import FrameValidation

  /** One packet read back from a capture file. */
  datatype ReplayPacket = ReplayPacket(timestampUs: u64, endpoint: byte, data: seq<byte>)

  /** Why a record could not be read. */
  datatype PacketProblem =
    | LengthEof
    | TooLong(len: nat)
    | EndpointEof
    | DataEof(len: nat)

  /**
   * The failures of a replay. Opening the file, reading the metadata and a
   * closed channel are not modelled; `InvalidPacket` carries the offset of
   * the record that failed.
   */
  datatype ReplayError =
    | InvalidPacket(offset: nat, problem: PacketProblem)
    | AlreadyRunning
    | NotRunning

  /** Replay settings other than the playback speed. */
  datatype ReplayConfig = ReplayConfig(loopPlayback: bool, expectedFrameSize: nat, forceMjpeg: bool)

  function DefaultConfig(): ReplayConfig
  {
    ReplayConfig(false, 0, false)
  }

  /** The largest packet a record may declare: 1 MiB. */
  const MAX_PACKET_LEN: nat := 1024 * 1024

  // ---------------------------------------------------------------------
  // The record reader
  // ---------------------------------------------------------------------

  /**
   * Reading records from `offset` on. Fewer than 8 bytes left end the list
   * cleanly. Otherwise a record must hold its length, a length of at most
   * 1 MiB, its endpoint and its data, in that order of checks; the error
   * names the record's offset.
   */
  function ParseRecords(file: seq<byte>, offset: nat): Result<seq<ReplayPacket>, ReplayError>
    requires offset <= |file|
    decreases |file| - offset
  {
    if |file| - offset < 8 then Ok([])
    else
      var timestamp := TimestampAt(file, offset);
      if |file| - offset < 12 then Err(InvalidPacket(offset, LengthEof))
      else
        var len := FromLe(file[offset + 8..offset + 12]);
        if len > MAX_PACKET_LEN then Err(InvalidPacket(offset, TooLong(len)))
        else if |file| - offset < 13 then Err(InvalidPacket(offset, EndpointEof))
        else if |file| - (offset + 13) < len then Err(InvalidPacket(offset, DataEof(len)))
        else
          var packet := ReplayPacket(timestamp, file[offset + 12], file[offset + 13..offset + 13 + len]);
          Capture.Prepend([packet], ParseRecords(file, offset + 13 + len))
  }

  /** The `u64` little-endian timestamp at the start of a record. */
  function TimestampAt(file: seq<byte>, offset: nat): (t: u64)
    requires offset + 8 <= |file|
    ensures t == FromLe(file[offset..offset + 8])
  {
    FromLeBound(file[offset..offset + 8]);
    Pow256Values();
    FromLe(file[offset..offset + 8])
  }

  /** `read_packets_with_timestamps`: reads records until fewer than 8 bytes remain or one is invalid. */
  method ReadPacketsWithTimestamps(file: seq<byte>) returns (r: Result<seq<ReplayPacket>, ReplayError>)
    ensures r == ParseRecords(file, 0)
  {
    var packets: seq<ReplayPacket> := [];
    var offset := 0;
    Capture.PrependNothing(ParseRecords(file, 0));
    while true
      invariant offset <= |file|
      invariant ParseRecords(file, 0) == Capture.Prepend(packets, ParseRecords(file, offset))
      decreases |file| - offset
    {
      if |file| - offset < 8 {
        assert packets + [] == packets;
        return Ok(packets);
      }
      var timestamp := TimestampAt(file, offset);
      if |file| - offset < 12 {
        return Err(InvalidPacket(offset, LengthEof));
      }
      var len := FromLe(file[offset + 8..offset + 12]);
      if len > MAX_PACKET_LEN {
        return Err(InvalidPacket(offset, TooLong(len)));
      }
      if |file| - offset < 13 {
        return Err(InvalidPacket(offset, EndpointEof));
      }
      if |file| - (offset + 13) < len {
        return Err(InvalidPacket(offset, DataEof(len)));
      }
      var packet := ReplayPacket(timestamp, file[offset + 12], file[offset + 13..offset + 13 + len]);
      Capture.PrependStep(packets, packet, ParseRecords(file, offset + 13 + len));
      packets := packets + [packet];
      offset := offset + 13 + len;
    }
  }

  // ---------------------------------------------------------------------
  // Reading back what the capture wrote
  // ---------------------------------------------------------------------

  function AsReplay(p: Capture.CapturedPacket): ReplayPacket
  {
    ReplayPacket(p.timestampUs, p.endpoint, p.data)
  }

  function Replayed(packets: seq<Capture.CapturedPacket>): (r: seq<ReplayPacket>)
    ensures |r| == |packets| && forall i :: 0 <= i < |packets| ==> r[i] == AsReplay(packets[i])
  {
    seq(|packets|, i requires 0 <= i < |packets| => AsReplay(packets[i]))
  }

  /** A slice holding two parts holds each part at its own offset. */
  lemma SliceParts(file: seq<byte>, offset: nat, a: seq<byte>, b: seq<byte>)
    requires offset + |a| + |b| <= |file| && file[offset..offset + |a| + |b|] == a + b
    ensures file[offset..offset + |a|] == a
    ensures file[offset + |a|..offset + |a| + |b|] == b
  {
    assert file[offset..offset + |a|] == file[offset..offset + |a| + |b|][..|a|];
    assert file[offset + |a|..offset + |a| + |b|] == file[offset..offset + |a| + |b|][|a|..];
  }

  /** A well-formed record at `offset` is read as its packet, and reading goes on right after it. */
  lemma ParseAt(file: seq<byte>, offset: nat, packet: ReplayPacket)
    requires offset + 13 + |packet.data| <= |file| && |packet.data| <= MAX_PACKET_LEN
    requires FromLe(file[offset..offset + 8]) == packet.timestampUs
    requires FromLe(file[offset + 8..offset + 12]) == |packet.data|
    requires file[offset + 12] == packet.endpoint
    requires file[offset + 13..offset + 13 + |packet.data|] == packet.data
    ensures ParseRecords(file, offset) == Capture.Prepend([packet], ParseRecords(file, offset + 13 + |packet.data|))
  {
  }

  /** The fields of a capture record: an 8-byte timestamp, a 4-byte length, the endpoint and the data. */
  lemma RecordLayout(p: Capture.CapturedPacket) returns (stamp: seq<byte>, length: seq<byte>)
    requires |p.data| <= MAX_PACKET_LEN
    ensures Capture.Record(p) == stamp + length + [p.endpoint] + p.data
    ensures |stamp| == 8 && FromLe(stamp) == p.timestampUs
    ensures |length| == 4 && FromLe(length) == |p.data|
  {
    Pow256Values();
    stamp, length := LeBytes(p.timestampUs, 8), LeBytes(|p.data|, 4);
    LeRoundTrip(p.timestampUs, 8);
    LeRoundTrip(|p.data|, 4);
  }

  /** A record written by the capture, found at `offset`, is read as its packet and reading goes on after it. */
  lemma ParseRecordAt(file: seq<byte>, offset: nat, p: Capture.CapturedPacket)
    requires |p.data| <= MAX_PACKET_LEN
    requires offset + |Capture.Record(p)| <= |file| && file[offset..offset + |Capture.Record(p)|] == Capture.Record(p)
    ensures ParseRecords(file, offset) == Capture.Prepend([AsReplay(p)], ParseRecords(file, offset + |Capture.Record(p)|))
  {
    var stamp, length := RecordLayout(p);
    SliceParts(file, offset, stamp + length + [p.endpoint], p.data);
    SliceParts(file, offset, stamp + length, [p.endpoint]);
    SliceParts(file, offset, stamp, length);
    assert file[offset + 12] == file[offset + 12..offset + 13][0];
    ParseAt(file, offset, AsReplay(p));
  }

  lemma PrependAll<T, E>(a: seq<T>, b: seq<T>, rest: Result<seq<T>, E>)
    ensures Capture.Prepend(a, Capture.Prepend(b, rest)) == Capture.Prepend(a + b, rest)
  {
    if rest.Ok? {
      assert a + (b + rest.value) == (a + b) + rest.value;
    }
  }

  /** Reading a first part and then the rest is reading both parts. */
  lemma PrependChain(whole: Result<seq<ReplayPacket>, ReplayError>, middle: Result<seq<ReplayPacket>, ReplayError>,
                     rest: Result<seq<ReplayPacket>, ReplayError>,
                     first: seq<ReplayPacket>, second: seq<ReplayPacket>, both: seq<ReplayPacket>)
    requires whole == Capture.Prepend(first, middle) && middle == Capture.Prepend(second, rest)
    requires both == first + second
    ensures whole == Capture.Prepend(both, rest)
  {
    PrependAll(first, second, rest);
  }

  /** The first of several records is read as its packet; the others follow it in the file. */
  lemma RecordsSplit(file: seq<byte>, offset: nat, packets: seq<Capture.CapturedPacket>) returns (next: nat)
    requires |packets| > 0 && forall i :: 0 <= i < |packets| ==> |packets[i].data| <= MAX_PACKET_LEN
    requires offset + |Capture.Records(packets)| <= |file|
    requires file[offset..offset + |Capture.Records(packets)|] == Capture.Records(packets)
    ensures next + |Capture.Records(packets[1..])| == offset + |Capture.Records(packets)| <= |file|
    ensures file[next..next + |Capture.Records(packets[1..])|] == Capture.Records(packets[1..])
    ensures ParseRecords(file, offset) == Capture.Prepend([AsReplay(packets[0])], ParseRecords(file, next))
    ensures [AsReplay(packets[0])] + Replayed(packets[1..]) == Replayed(packets)
  {
    var p, others := packets[0], packets[1..];
    next := offset + |Capture.Record(p)|;
    assert Capture.Records(packets) == Capture.Record(p) + Capture.Records(others);
    SliceParts(file, offset, Capture.Record(p), Capture.Records(others));
    ParseRecordAt(file, offset, p);
  }

  /**
   * Records written by the capture, found at `offset`, are read back as
   * their packets, in order; what follows is whatever the rest of the file
   * reads as.
   */
  lemma {:induction false} RecordsAt(file: seq<byte>, offset: nat, packets: seq<Capture.CapturedPacket>)
    requires forall i :: 0 <= i < |packets| ==> |packets[i].data| <= MAX_PACKET_LEN
    requires offset + |Capture.Records(packets)| <= |file|
    requires file[offset..offset + |Capture.Records(packets)|] == Capture.Records(packets)
    ensures ParseRecords(file, offset)
            == Capture.Prepend(Replayed(packets), ParseRecords(file, offset + |Capture.Records(packets)|))
    decreases |packets|
  {
    if |packets| == 0 {
      Capture.PrependNothing(ParseRecords(file, offset));
      assert Replayed(packets) == [];
    } else {
      var others := packets[1..];
      var next := RecordsSplit(file, offset, packets);
      RecordsAt(file, next, others);
      PrependChain(ParseRecords(file, offset), ParseRecords(file, next), ParseRecords(file, next + |Capture.Records(others)|),
                   [AsReplay(packets[0])], Replayed(others), Replayed(packets));
    }
  }

  /** Records written by the capture at the start of a file are read back, and reading goes on at the tail. */
  lemma RecordsFollowedBy(packets: seq<Capture.CapturedPacket>, tail: seq<byte>)
    requires forall i :: 0 <= i < |packets| ==> |packets[i].data| <= MAX_PACKET_LEN
    ensures var file := Capture.Records(packets) + tail;
            ParseRecords(file, 0) == Capture.Prepend(Replayed(packets), ParseRecords(file, |Capture.Records(packets)|))
  {
    var file := Capture.Records(packets) + tail;
    assert file[0..|Capture.Records(packets)|] == Capture.Records(packets);
    RecordsAt(file, 0, packets);
  }

  /** The reader inverts `write_capture_files` for packets of at most 1 MiB. */
  lemma CaptureFileRoundTrip(packets: seq<Capture.CapturedPacket>)
    requires forall i :: 0 <= i < |packets| ==> |packets[i].data| <= MAX_PACKET_LEN
    ensures ParseRecords(Capture.Records(packets), 0) == Ok(Replayed(packets))
  {
    ShortTailIgnored(packets, []);
    assert Capture.Records(packets) + [] == Capture.Records(packets);
  }

  /** After whole records, fewer than 8 trailing bytes are ignored. */
  lemma ShortTailIgnored(packets: seq<Capture.CapturedPacket>, tail: seq<byte>)
    requires forall i :: 0 <= i < |packets| ==> |packets[i].data| <= MAX_PACKET_LEN
    requires |tail| < 8
    ensures ParseRecords(Capture.Records(packets) + tail, 0) == Ok(Replayed(packets))
  {
    RecordsFollowedBy(packets, tail);
    assert Replayed(packets) + [] == Replayed(packets);
  }

  /**
   * After whole records, a record header that declares more than 1 MiB is
   * rejected at its own offset, whatever follows it.
   */
  lemma OversizedRecordRejected(packets: seq<Capture.CapturedPacket>, tail: seq<byte>)
    requires forall i :: 0 <= i < |packets| ==> |packets[i].data| <= MAX_PACKET_LEN
    requires |tail| >= 12 && FromLe(tail[8..12]) > MAX_PACKET_LEN
    ensures ParseRecords(Capture.Records(packets) + tail, 0)
            == Err(InvalidPacket(|Capture.Records(packets)|, TooLong(FromLe(tail[8..12]))))
  {
    RecordsFollowedBy(packets, tail);
    var file := Capture.Records(packets) + tail;
    var o := |Capture.Records(packets)|;
    assert file[o + 8..o + 12] == tail[8..12];
  }

  /** After whole records, a record cut inside its length field is rejected at its own offset. */
  lemma CutLengthRejected(packets: seq<Capture.CapturedPacket>, tail: seq<byte>)
    requires forall i :: 0 <= i < |packets| ==> |packets[i].data| <= MAX_PACKET_LEN
    requires 8 <= |tail| < 12
    ensures ParseRecords(Capture.Records(packets) + tail, 0) == Err(InvalidPacket(|Capture.Records(packets)|, LengthEof))
  {
    RecordsFollowedBy(packets, tail);
  }

  /** After whole records, a record that ends right after its length field is rejected at its own offset. */
  lemma CutEndpointRejected(packets: seq<Capture.CapturedPacket>, tail: seq<byte>)
    requires forall i :: 0 <= i < |packets| ==> |packets[i].data| <= MAX_PACKET_LEN
    requires |tail| == 12 && FromLe(tail[8..12]) <= MAX_PACKET_LEN
    ensures ParseRecords(Capture.Records(packets) + tail, 0) == Err(InvalidPacket(|Capture.Records(packets)|, EndpointEof))
  {
    RecordsFollowedBy(packets, tail);
    var file := Capture.Records(packets) + tail;
    var o := |Capture.Records(packets)|;
    assert file[o + 8..o + 12] == tail[8..12];
  }

  /** After whole records, a record whose data runs past the end of the file is rejected at its own offset. */
  lemma CutDataRejected(packets: seq<Capture.CapturedPacket>, tail: seq<byte>)
    requires forall i :: 0 <= i < |packets| ==> |packets[i].data| <= MAX_PACKET_LEN
    requires |tail| >= 13 && FromLe(tail[8..12]) <= MAX_PACKET_LEN && |tail| - 13 < FromLe(tail[8..12])
    ensures ParseRecords(Capture.Records(packets) + tail, 0)
            == Err(InvalidPacket(|Capture.Records(packets)|, DataEof(FromLe(tail[8..12]))))
  {
    RecordsFollowedBy(packets, tail);
    var file := Capture.Records(packets) + tail;
    var o := |Capture.Records(packets)|;
    assert file[o + 8..o + 12] == tail[8..12];
  }

  // ---------------------------------------------------------------------
  // Duration
  // ---------------------------------------------------------------------

  /** `duration_ms`: the last packet's timestamp in whole milliseconds, 0 without packets. */
  function DurationMs(packets: seq<ReplayPacket>): nat
  {
    if |packets| == 0 then 0 else packets[|packets| - 1].timestampUs / 1000
  }

  predicate Nondecreasing(packets: seq<ReplayPacket>)
  {
    forall i, j :: 0 <= i <= j < |packets| ==> packets[i].timestampUs <= packets[j].timestampUs
  }

  /** With timestamps in order, the duration covers every packet: none lies in a later millisecond. */
  lemma DurationCoversAll(packets: seq<ReplayPacket>)
    requires Nondecreasing(packets)
    ensures forall i :: 0 <= i < |packets| ==> packets[i].timestampUs / 1000 <= DurationMs(packets)
  {
    forall i | 0 <= i < |packets|
      ensures packets[i].timestampUs / 1000 <= DurationMs(packets)
    {
      DivMono(packets[i].timestampUs, packets[|packets| - 1].timestampUs, 1000);
    }
  }

  /**
   * A legacy capture of two packets or more, written and read back, lasts
   * the capture's duration in whole milliseconds.
   */
  lemma LegacyCaptureDuration(recorded: seq<seq<byte>>, durationUs: u64)
    requires |recorded| > 1
    requires forall i :: 0 <= i < |recorded| ==> |recorded[i]| <= MAX_PACKET_LEN
    ensures var captured := Capture.Timestamped(recorded, durationUs);
            && ParseRecords(Capture.Records(captured), 0) == Ok(Replayed(captured))
            && DurationMs(Replayed(captured)) == durationUs / 1000
            && Nondecreasing(Replayed(captured))
  {
    var captured := Capture.Timestamped(recorded, durationUs);
    CaptureFileRoundTrip(captured);
    Capture.TimestampsSpread(recorded, durationUs);
  }

  // ---------------------------------------------------------------------
  // Choosing the assembler
  // ---------------------------------------------------------------------

  predicate OccursAt(s: string, pattern: string, i: nat)
  {
    i + |pattern| <= |s| && s[i..i + |pattern|] == pattern
  }

  /** Substring search, scanning from the front (`str::contains`). */
  predicate Contains(s: string, pattern: string)
    decreases |s|
  {
    |pattern| <= |s| && (s[..|pattern|] == pattern || (|s| > 0 && Contains(s[1..], pattern)))
  }

  /** Dropping the first character shifts every occurrence one place to the left. */
  lemma OccursShift(s: string, pattern: string, i: nat)
    requires |s| > 0
    ensures OccursAt(s[1..], pattern, i) <==> OccursAt(s, pattern, i + 1)
  {
    if i + 1 + |pattern| <= |s| {
      assert s[1..][i..i + |pattern|] == s[i + 1..i + 1 + |pattern|];
    }
  }

  /** The scan finds the pattern exactly when it occurs somewhere. */
  lemma {:induction false} ContainsIff(s: string, pattern: string)
    ensures Contains(s, pattern) <==> exists i :: OccursAt(s, pattern, i)
    decreases |s|
  {
    if |pattern| > |s| {
      assert forall i :: !OccursAt(s, pattern, i);
    } else if s[..|pattern|] == pattern {
      assert OccursAt(s, pattern, 0);
    } else {
      assert |s| > 0;
      ContainsIff(s[1..], pattern);
      if i: nat :| OccursAt(s[1..], pattern, i) {
        OccursShift(s, pattern, i);
      }
      if j: nat :| OccursAt(s, pattern, j) {
        assert j != 0;
        OccursShift(s, pattern, j - 1);
      }
    }
  }

  /** The format names a JPEG variant: it contains "mjpeg" or "jpeg", ignoring case. */
  predicate IsJpegFormat(format: string)
  {
    Contains(FrameValidation.Lower(format), "mjpeg") || Contains(FrameValidation.Lower(format), "jpeg")
  }

  /** Looking for "mjpeg" adds nothing: a format is a JPEG format exactly when it contains "jpeg". */
  lemma JpegFormatIff(format: string)
    ensures IsJpegFormat(format) <==> Contains(FrameValidation.Lower(format), "jpeg")
  {
    var s := FrameValidation.Lower(format);
    ContainsIff(s, "mjpeg");
    ContainsIff(s, "jpeg");
    if i: nat :| OccursAt(s, "mjpeg", i) {
      assert s[i + 1..i + 5] == s[i..i + 5][1..];
      assert OccursAt(s, "jpeg", i + 1);
    }
  }

  /** The assembler's size `width * height * 2`, computed in `u32`, does not overflow where it is computed. */
  predicate Yuy2SizeFits(config: ReplayConfig, metadata: Option<Capture.CaptureMetadata>)
  {
    (!config.forceMjpeg && config.expectedFrameSize == 0 && metadata.Some? && !IsJpegFormat(metadata.value.formatType))
      ==> metadata.value.width * metadata.value.height * 2 < U32_LIMIT
  }

  function MjpegState(): AssemblerState
  {
    InitialState(0).(isMjpeg := Some(true))
  }

  /**
   * `create_assembler`: forced MJPEG first, then a configured frame size,
   * then a JPEG format named in the metadata, then the metadata's
   * dimensions as YUY2, and otherwise an assembler that detects the format.
   */
  function AssemblerFor(config: ReplayConfig, metadata: Option<Capture.CaptureMetadata>): AssemblerState
    requires Yuy2SizeFits(config, metadata)
  {
    if config.forceMjpeg then MjpegState()
    else if config.expectedFrameSize > 0 then InitialState(config.expectedFrameSize)
    else if metadata.Some? && IsJpegFormat(metadata.value.formatType) then MjpegState()
    else if metadata.Some? && metadata.value.width > 0 && metadata.value.height > 0 then
      InitialState(metadata.value.width * metadata.value.height * 2).(isMjpeg := Some(false))
    else InitialState(0)
  }

  /**
   * What the choice amounts to: every chosen assembler starts empty and
   * unsynced; it is fixed to MJPEG exactly when forced or, with no size
   * configured, when the metadata's format contains "jpeg" in any case; it
   * is fixed to YUY2 exactly when the metadata's dimensions are used.
   */
  lemma AssemblerChoice(config: ReplayConfig, metadata: Option<Capture.CaptureMetadata>)
    requires Yuy2SizeFits(config, metadata)
    ensures var s := AssemblerFor(config, metadata);
            var fromMetadata := !config.forceMjpeg && config.expectedFrameSize == 0 && metadata.Some?;
            && s.frameBuffer == [] && s.lastFrameId == None && !s.synced
            && (s.isMjpeg == Some(true) <==>
                  config.forceMjpeg || (fromMetadata && Contains(FrameValidation.Lower(metadata.value.formatType), "jpeg")))
            && (s.isMjpeg == Some(false) <==>
                  fromMetadata && !Contains(FrameValidation.Lower(metadata.value.formatType), "jpeg")
                  && metadata.value.width > 0 && metadata.value.height > 0)
  {
    if metadata.Some? {
      JpegFormatIff(metadata.value.formatType);
    }
  }

  /** A YUY2 capture of 640x480 replays through a YUY2 assembler for 614400-byte frames. */
  lemma Yuy2MetadataExample()
    ensures var meta := Capture.DefaultMetadata().(formatType := "yuy2", width := 640, height := 480);
            AssemblerFor(DefaultConfig(), Some(meta)) == InitialState(614400).(isMjpeg := Some(false))
  {
    var s := FrameValidation.Lower("yuy2");
    assert |s| == 4 && s[0] == 'y';
    assert s[..4] != "jpeg" by { assert s[..4][0] == 'y'; }
    assert !Contains(s[1..], "jpeg");
    assert !Contains(s, "jpeg");
    JpegFormatIff("yuy2");
  }

  /** A capture whose format reads "MJPEG" in capitals replays through an MJPEG assembler. */
  lemma MjpegMetadataExample()
    ensures var meta := Capture.DefaultMetadata().(formatType := "MJPEG", width := 640, height := 480);
            AssemblerFor(DefaultConfig(), Some(meta)) == MjpegState()
  {
    FrameValidation.LowerLiteral("MJPEG", "mjpeg");
    var s := FrameValidation.Lower("MJPEG");
    assert s[..5] == "mjpeg";
    assert Contains(s, "mjpeg");
  }

  /** `create_assembler`, building the chosen assembler. */
  method CreateAssembler(config: ReplayConfig, metadata: Option<Capture.CaptureMetadata>) returns (a: FrameAssembler)
    requires Yuy2SizeFits(config, metadata)
    ensures fresh(a) && a.State() == AssemblerFor(config, metadata)
  {
    if config.forceMjpeg {
      a := new FrameAssembler.NewMjpeg();
    } else if config.expectedFrameSize > 0 {
      a := new FrameAssembler(config.expectedFrameSize);
    } else if metadata.Some? && IsJpegFormat(metadata.value.formatType) {
      a := new FrameAssembler.NewMjpeg();
    } else if metadata.Some? && metadata.value.width > 0 && metadata.value.height > 0 {
      a := new FrameAssembler.NewYuy2(metadata.value.width, metadata.value.height);
    } else {
      a := new FrameAssembler(0);
    }
  }

  // ---------------------------------------------------------------------
  // Replaying through the assembler
  // ---------------------------------------------------------------------

  function DataOf(packets: seq<ReplayPacket>): (data: seq<seq<byte>>)
    ensures |data| == |packets| && forall i :: 0 <= i < |packets| ==> data[i] == packets[i].data
  {
    seq(|packets|, i requires 0 <= i < |packets| => packets[i].data)
  }

  /** The frames of replaying a file: its packets fed, in order, to one assembler chosen with the default settings. */
  function ReplayedFrames(file: seq<byte>, metadata: Option<Capture.CaptureMetadata>): Result<seq<seq<byte>>, ReplayError>
    requires Yuy2SizeFits(DefaultConfig(), metadata)
  {
    match ParseRecords(file, 0)
    case Err(e) => Err(e)
    case Ok(packets) => Ok(AssemblyRoundTrip.Feed(AssemblerFor(DefaultConfig(), metadata), DataOf(packets)).1)
  }

  /** One packet through the assembler: the rest of the feed is what the remaining packets give. */
  lemma FeedStep(s: AssemblerState, data: seq<seq<byte>>, i: nat)
    requires i < |data|
    ensures var step := Step(s, data[i]);
            var after := AssemblyRoundTrip.Feed(step.0, data[i + 1..]);
            AssemblyRoundTrip.Feed(s, data[i..]) == (after.0, AssemblyRoundTrip.Emitted(step.1) + after.1)
  {
    assert data[i..] == [data[i]] + data[i + 1..];
    AssemblyRoundTrip.FeedCons(s, data[i], data[i + 1..]);
  }

  /** One packet of the replay loop keeps the frames gathered so far plus those still to come equal to the whole feed, whatever the transition. */
  lemma FeedWithGoesOn(step: AssemblyRoundTrip.Transition, start: AssemblerState, data: seq<seq<byte>>, i: nat,
                       before: AssemblerState, framesBefore: seq<seq<byte>>,
                       after: AssemblerState, result: ProcessResult, frames: seq<seq<byte>>)
    requires i < |data| && step(before, data[i]) == (after, result)
    requires frames == framesBefore + AssemblyRoundTrip.Emitted(result)
    requires var rest := AssemblyRoundTrip.FeedWith(step, before, data[i..]);
             AssemblyRoundTrip.FeedWith(step, start, data) == (rest.0, framesBefore + rest.1)
    ensures var rest := AssemblyRoundTrip.FeedWith(step, after, data[i + 1..]);
            AssemblyRoundTrip.FeedWith(step, start, data) == (rest.0, frames + rest.1)
  {
    assert data[i..] == [data[i]] + data[i + 1..];
    AssemblyRoundTrip.FeedWithCons(step, before, data[i], data[i + 1..]);
    var rest := AssemblyRoundTrip.FeedWith(step, after, data[i + 1..]);
    assert framesBefore + (AssemblyRoundTrip.Emitted(result) + rest.1) == frames + rest.1;
  }

  /** The same, for the assembler's own transition. */
  lemma FeedGoesOn(start: AssemblerState, data: seq<seq<byte>>, i: nat, before: AssemblerState, framesBefore: seq<seq<byte>>,
                   after: AssemblerState, result: ProcessResult, frames: seq<seq<byte>>)
    requires i < |data| && (after, result) == Step(before, data[i])
    requires frames == framesBefore + AssemblyRoundTrip.Emitted(result)
    requires var rest := AssemblyRoundTrip.Feed(before, data[i..]);
             AssemblyRoundTrip.Feed(start, data) == (rest.0, framesBefore + rest.1)
    ensures var rest := AssemblyRoundTrip.Feed(after, data[i + 1..]);
            AssemblyRoundTrip.Feed(start, data) == (rest.0, frames + rest.1)
  {
    FeedWithGoesOn(Step, start, data, i, before, framesBefore, after, result, frames);
  }

  /** `replay_all_frames`: every frame the assembler emits while the file's packets are fed to it, in order. */
  method ReplayAllFrames(file: seq<byte>, metadata: Option<Capture.CaptureMetadata>) returns (r: Result<seq<seq<byte>>, ReplayError>)
    requires Yuy2SizeFits(DefaultConfig(), metadata)
    ensures r == ReplayedFrames(file, metadata)
  {
    var loaded := ReadPacketsWithTimestamps(file);
    if loaded.Err? {
      return Err(loaded.error);
    }
    var packets := loaded.value;
    var assembler := CreateAssembler(DefaultConfig(), metadata);
    ghost var data := DataOf(packets);
    ghost var start := assembler.State();
    var frames: seq<seq<byte>> := [];
    var i := 0;
    assert data[0..] == data && [] + AssemblyRoundTrip.Feed(start, data).1 == AssemblyRoundTrip.Feed(start, data).1;
    while i < |packets|
      invariant i <= |packets|
      invariant var rest := AssemblyRoundTrip.Feed(assembler.State(), data[i..]);
                AssemblyRoundTrip.Feed(start, data) == (rest.0, frames + rest.1)
    {
      ghost var before, framesBefore := assembler.State(), frames;
      var result := assembler.ProcessPacket(packets[i].data);
      if result.Frame? {
        frames := frames + [result.data];
      }
      FeedGoesOn(start, data, i, before, framesBefore, assembler.State(), result, frames);
      i := i + 1;
    }
    assert data[i..] == [];
    assert frames + [] == frames;
    r := Ok(frames);
  }

  /** `FrameIterator`: the packets not yet fed and the assembler they go to. */
  class FrameIterator {
    var remaining: seq<ReplayPacket>
    const assembler: FrameAssembler

    constructor (packets: seq<ReplayPacket>, assembler: FrameAssembler)
      ensures remaining == packets && this.assembler == assembler
    {
      remaining := packets;
      this.assembler := assembler;
    }

    /**
     * Feeds packets until one completes a frame and returns it; `None` once
     * the packets run out. The frames returned, one call after the other,
     * are exactly those of feeding all the packets at once.
     */
    method Next() returns (frame: Option<seq<byte>>)
      modifies this, assembler
      ensures var before := AssemblyRoundTrip.Feed(old(assembler.State()), DataOf(old(remaining)));
              var after := AssemblyRoundTrip.Feed(assembler.State(), DataOf(remaining));
              && after.0 == before.0
              && (frame.None? ==> remaining == [] && before.1 == [])
              && (frame.Some? ==> before.1 == [frame.value] + after.1)
      ensures |remaining| <= old(|remaining|)
    {
      while true
        invariant AssemblyRoundTrip.Feed(old(assembler.State()), DataOf(old(remaining)))
                  == AssemblyRoundTrip.Feed(assembler.State(), DataOf(remaining))
        invariant |remaining| <= old(|remaining|)
        decreases |remaining|
      {
        if |remaining| == 0 {
          return None;
        }
        ghost var data, before := DataOf(remaining), assembler.State();
        FeedStep(before, data, 0);
        assert data[0..] == data && data[1..] == DataOf(remaining[1..]);
        var packet := remaining[0];
        remaining := remaining[1..];
        var result := assembler.ProcessPacket(packet.data);
        ghost var rest := AssemblyRoundTrip.Feed(assembler.State(), DataOf(remaining));
        assert AssemblyRoundTrip.Feed(before, data) == (rest.0, AssemblyRoundTrip.Emitted(result) + rest.1);
        if result.Frame? {
          return Some(result.data);
        }
        assert AssemblyRoundTrip.Emitted(result) + rest.1 == rest.1;
      }
    }
  }

  /** `FrameIterator::with_config`: reads the file and chooses the assembler. */
  method OpenFrameIterator(file: seq<byte>, config: ReplayConfig, metadata: Option<Capture.CaptureMetadata>)
    returns (r: Result<FrameIterator, ReplayError>)
    requires Yuy2SizeFits(config, metadata)
    ensures ParseRecords(file, 0).Err? ==> r == Err(ParseRecords(file, 0).error)
    ensures ParseRecords(file, 0).Ok? ==>
              && r.Ok? && fresh(r.value) && fresh(r.value.assembler)
              && r.value.remaining == ParseRecords(file, 0).value
              && r.value.assembler.State() == AssemblerFor(config, metadata)
  {
    var loaded := ReadPacketsWithTimestamps(file);
    if loaded.Err? {
      return Err(loaded.error);
    }
    var assembler := CreateAssembler(config, metadata);
    var frameIterator := new FrameIterator(loaded.value, assembler);
    r := Ok(frameIterator);
  }

  // ---------------------------------------------------------------------
  // The replay object
  // ---------------------------------------------------------------------

  /** `PacketReplay`: the loaded packets, their metadata, the settings and whether a replay runs. */
  class PacketReplay {
    var packets: seq<ReplayPacket>
    var metadata: Option<Capture.CaptureMetadata>
    var config: ReplayConfig
    var running: bool

    constructor (packets: seq<ReplayPacket>, metadata: Option<Capture.CaptureMetadata>)
      ensures this.packets == packets && this.metadata == metadata
      ensures config == DefaultConfig() && !running
    {
      this.packets := packets;
      this.metadata := metadata;
      config := DefaultConfig();
      running := false;
    }

    /** Starts a replay unless one is running; the replay itself is not modelled. */
    method Start() returns (r: Result<(), ReplayError>)
      modifies this
      ensures old(running) ==> r == Err(AlreadyRunning) && unchanged(this)
      ensures !old(running) ==> r == Ok(()) && running
      ensures packets == old(packets) && metadata == old(metadata) && config == old(config)
    {
      if running {
        return Err(AlreadyRunning);
      }
      running := true;
      r := Ok(());
    }

    /** Stops a running replay. */
    method Stop() returns (r: Result<(), ReplayError>)
      modifies this
      ensures !old(running) ==> r == Err(NotRunning) && unchanged(this)
      ensures old(running) ==> r == Ok(()) && !running
      ensures packets == old(packets) && metadata == old(metadata) && config == old(config)
    {
      if !running {
        return Err(NotRunning);
      }
      running := false;
      r := Ok(());
    }
  }

  /** `PacketReplay::load`: reads the file; the metadata comes from the companion file, if any. */
  method Load(file: seq<byte>, metadata: Option<Capture.CaptureMetadata>) returns (r: Result<PacketReplay, ReplayError>)
    ensures ParseRecords(file, 0).Err? ==> r == Err(ParseRecords(file, 0).error)
    ensures ParseRecords(file, 0).Ok? ==>
              && r.Ok? && fresh(r.value)
              && r.value.packets == ParseRecords(file, 0).value && r.value.metadata == metadata
              && r.value.config == DefaultConfig() && !r.value.running
  {
    var loaded := ReadPacketsWithTimestamps(file);
    if loaded.Err? {
      return Err(loaded.error);
    }
    var replay := new PacketReplay(loaded.value, metadata);
    r := Ok(replay);
  }
}
