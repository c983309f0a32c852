// Packet capture: the recording session that USB callbacks feed, the
// `packets.bin` layout written when it stops and read back for analysis,
// and the legacy timestamped record file that the replay reader consumes.

module Capture {
  import opened Common

  type u16 = n: nat | n < 0x1_0000

  /**
   * The failures a capture reports. Lock poisoning, JSON and file-system
   * failures other than a file that ends inside a packet are not modelled.
   */
  datatype CaptureError =
    | NotActive
    | AlreadyActive
    | DirectoryNotFound(dir: string)
    | UnexpectedEof

  /** Device and session description stored next to the packets. */
  datatype CaptureMetadata = CaptureMetadata(
    vendorId: u16,
    productId: u16,
    formatType: string,
    width: u32,
    height: u32,
    totalPackets: u64,
    totalFrames: u64,
    durationMs: u64,
    totalBytes: u64,
    description: string)

  /** `CaptureMetadata::default()`: zero numbers and empty strings. */
  function DefaultMetadata(): CaptureMetadata
  {
    CaptureMetadata(0, 0, "", 0, 0, 0, 0, 0, 0, "")
  }

  /** What a successful stop produces: the bytes of the packet file and the final metadata. */
  datatype CaptureOutput = CaptureOutput(packetsFile: seq<byte>, metadata: CaptureMetadata)

  /** A legacy captured packet: timestamp relative to the start in microseconds, data, endpoint. */
  datatype CapturedPacket = CapturedPacket(timestampUs: u64, data: seq<byte>, endpoint: byte)

  /** The sum of the packets' lengths. */
  function TotalBytes(packets: seq<seq<byte>>): nat
  {
    if |packets| == 0 then 0 else TotalBytes(packets[..|packets| - 1]) + |packets[|packets| - 1]|
  }

  lemma TotalBytesAppend(packets: seq<seq<byte>>, packet: seq<byte>)
    ensures TotalBytes(packets + [packet]) == TotalBytes(packets) + |packet|
  {
    assert (packets + [packet])[..|packets|] == packets;
  }

  /**
   * Time since the start, saturating at zero as `Instant::elapsed` does; no
   * start time counts as zero. Clock readings are microseconds.
   */
  function ElapsedUs(start: Option<nat>, now: nat): nat
  {
    match start
    case None => 0
    case Some(t) => if now >= t then now - t else 0
  }

  // ---------------------------------------------------------------------
  // The packets.bin layout: [u32 LE length][data] per packet
  // ---------------------------------------------------------------------

  /** One saved packet: its length truncated to `u32`, in little-endian, then its bytes. */
  function SavedRecord(packet: seq<byte>): seq<byte>
  {
    LeBytes(|packet| % U32_LIMIT, 4) + packet
  }

  function SavedBytes(packets: seq<seq<byte>>): seq<byte>
  {
    if |packets| == 0 then [] else SavedRecord(packets[0]) + SavedBytes(packets[1..])
  }

  /** Packets already read, followed by what reading the rest gives. */
  function Prepend<T, E>(done: seq<T>, rest: Result<seq<T>, E>): Result<seq<T>, E>
  {
    match rest
    case Ok(more) => Ok(done + more)
    case Err(e) => Err(e)
  }

  /**
   * Reading saved packets from `offset` on: fewer than four bytes left ends
   * the list cleanly; a length that runs past the end is an unexpected end of file.
   */
  function ParseSaved(file: seq<byte>, offset: nat): Result<seq<seq<byte>>, CaptureError>
    requires offset <= |file|
    decreases |file| - offset
  {
    if |file| - offset < 4 then Ok([])
    else
      var len := FromLe(file[offset..offset + 4]);
      if |file| - (offset + 4) < len then Err(UnexpectedEof)
      else Prepend([file[offset + 4..offset + 4 + len]], ParseSaved(file, offset + 4 + len))
  }

  /** `save_packets`: writes every packet's record in order. */
  method SavePackets(packets: seq<seq<byte>>) returns (file: seq<byte>)
    ensures file == SavedBytes(packets)
  {
    file := [];
    var i := 0;
    while i < |packets|
      invariant i <= |packets|
      invariant file + SavedBytes(packets[i..]) == SavedBytes(packets)
    {
      assert packets[i..][1..] == packets[i + 1..];
      file := file + SavedRecord(packets[i]);
      i := i + 1;
    }
    assert packets[i..] == [];
  }

  /** `read_packets`: reads length-prefixed packets until fewer than four bytes remain. */
  method ReadPackets(file: seq<byte>) returns (r: Result<seq<seq<byte>>, CaptureError>)
    ensures r == ParseSaved(file, 0)
  {
    var packets: seq<seq<byte>> := [];
    var offset := 0;
    PrependNothing(ParseSaved(file, 0));
    while true
      invariant offset <= |file|
      invariant ParseSaved(file, 0) == Prepend(packets, ParseSaved(file, offset))
      decreases |file| - offset
    {
      if |file| - offset < 4 {
        assert packets + [] == packets;
        return Ok(packets);
      }
      var len := FromLe(file[offset..offset + 4]);
      if |file| - (offset + 4) < len {
        return Err(UnexpectedEof);
      }
      var packet := file[offset + 4..offset + 4 + len];
      PrependStep(packets, packet, ParseSaved(file, offset + 4 + len));
      packets := packets + [packet];
      offset := offset + 4 + len;
    }
  }

  lemma PrependNothing<T, E>(rest: Result<seq<T>, E>)
    ensures Prepend([], rest) == rest
  {
    if rest.Ok? {
      assert [] + rest.value == rest.value;
    }
  }

  lemma PrependStep<T, E>(done: seq<T>, x: T, rest: Result<seq<T>, E>)
    ensures Prepend(done, Prepend([x], rest)) == Prepend(done + [x], rest)
  {
    if rest.Ok? {
      assert done + ([x] + rest.value) == (done + [x]) + rest.value;
    }
  }

  /** The two parts of a record placed after a prefix sit at their offsets. */
  lemma PartsAt(prefix: seq<byte>, a: seq<byte>, b: seq<byte>, rest: seq<byte>)
    ensures var file := prefix + (a + b) + rest;
            && file[|prefix|..|prefix| + |a|] == a
            && file[|prefix| + |a|..|prefix| + |a| + |b|] == b
  {
    var file := prefix + (a + b) + rest;
    assert file == prefix + a + b + rest;
  }

  /** A saved record placed after a prefix is read as its packet, then reading goes on after it. */
  lemma ParseSavedRecord(prefix: seq<byte>, packet: seq<byte>, rest: seq<byte>)
    requires |packet| < U32_LIMIT
    ensures var before := prefix + SavedRecord(packet);
            ParseSaved(before + rest, |prefix|) == Prepend([packet], ParseSaved(before + rest, |before|))
  {
    var header := LeBytes(|packet|, 4);
    LeRoundTrip(|packet|, 4);
    assert SavedRecord(packet) == header + packet;
    PartsAt(prefix, header, packet, rest);
  }

  lemma Assoc(a: seq<byte>, b: seq<byte>, c: seq<byte>)
    ensures a + (b + c) == (a + b) + c
  {
  }

  /** Reading back what was saved after any prefix gives the packets, provided each length fits in `u32`. */
  lemma {:induction false} SavedRoundTripFrom(prefix: seq<byte>, packets: seq<seq<byte>>)
    requires forall i :: 0 <= i < |packets| ==> |packets[i]| < U32_LIMIT
    ensures ParseSaved(prefix + SavedBytes(packets), |prefix|) == Ok(packets)
    decreases |packets|
  {
    if |packets| == 0 {
      assert prefix + SavedBytes(packets) == prefix;
    } else {
      var packet, others := packets[0], packets[1..];
      Assoc(prefix, SavedRecord(packet), SavedBytes(others));
      ParseSavedRecord(prefix, packet, SavedBytes(others));
      SavedRoundTripFrom(prefix + SavedRecord(packet), others);
      assert [packet] + others == packets;
    }
  }

  /** `read_packets` inverts `save_packets` for packets shorter than 4 GiB. */
  lemma SavedRoundTrip(packets: seq<seq<byte>>)
    requires forall i :: 0 <= i < |packets| ==> |packets[i]| < U32_LIMIT
    ensures ParseSaved(SavedBytes(packets), 0) == Ok(packets)
  {
    SavedRoundTripFrom([], packets);
    assert [] + SavedBytes(packets) == SavedBytes(packets);
  }

  // ---------------------------------------------------------------------
  // The legacy record layout: [u64 LE timestamp][u32 LE length][u8 endpoint][data]
  // ---------------------------------------------------------------------

  /** One legacy record; the length is truncated to `u32`. */
  function Record(p: CapturedPacket): seq<byte>
  {
    LeBytes(p.timestampUs, 8) + LeBytes(|p.data| % U32_LIMIT, 4) + [p.endpoint] + p.data
  }

  function Records(packets: seq<CapturedPacket>): seq<byte>
  {
    if |packets| == 0 then [] else Record(packets[0]) + Records(packets[1..])
  }

  function DataOf(packets: seq<CapturedPacket>): (data: seq<seq<byte>>)
    ensures |data| == |packets| && forall i :: 0 <= i < |packets| ==> data[i] == packets[i].data
  {
    seq(|packets|, i requires 0 <= i < |packets| => packets[i].data)
  }

  /**
   * `write_capture_files`: the record file of the packets, in order, and
   * metadata whose totals are the packet count and the byte sum (`u64`).
   */
  method WriteCaptureFiles(packets: seq<CapturedPacket>, durationMs: u64) returns (file: seq<byte>, metadata: CaptureMetadata)
    ensures file == Records(packets)
    ensures metadata == DefaultMetadata().(totalPackets := |packets| % U64_LIMIT,
                                           totalBytes := TotalBytes(DataOf(packets)) % U64_LIMIT,
                                           durationMs := durationMs)
  {
    file := [];
    var i := 0;
    while i < |packets|
      invariant i <= |packets|
      invariant file + Records(packets[i..]) == Records(packets)
    {
      assert packets[i..][1..] == packets[i + 1..];
      file := file + Record(packets[i]);
      i := i + 1;
    }
    assert packets[i..] == [];
    metadata := DefaultMetadata().(totalPackets := |packets| % U64_LIMIT,
                                   totalBytes := TotalBytes(DataOf(packets)) % U64_LIMIT,
                                   durationMs := durationMs);
  }

  // ---------------------------------------------------------------------
  // Legacy timestamps, spread evenly over the capture
  // ---------------------------------------------------------------------

  /** Timestamp of packet i of n: `duration * i / (n - 1)` when n > 1, else 0. */
  function LegacyTimestamp(durationUs: nat, i: nat, n: nat): (t: nat)
    requires i < n
    ensures t <= durationUs
  {
    if n > 1 then
      TimestampBound(durationUs, i, n);
      (durationUs * i) / (n - 1)
    else 0
  }

  lemma TimestampBound(durationUs: nat, i: nat, n: nat)
    requires i < n && n > 1
    ensures (durationUs * i) / (n - 1) <= durationUs
  {
    MulMono(i, n - 1, durationUs);
    assert durationUs * i <= durationUs * (n - 1);
    DivMono(durationUs * i, durationUs * (n - 1), n - 1);
    MulDivCancel(durationUs, n - 1);
  }

  /** The packets of the legacy `stop`, in order, with their spread timestamps and endpoint 0. */
  function Timestamped(packets: seq<seq<byte>>, durationUs: u64): (r: seq<CapturedPacket>)
    ensures |r| == |packets|
    ensures forall i :: 0 <= i < |r| ==> r[i].data == packets[i] && r[i].endpoint == 0
  {
    seq(|packets|, i requires 0 <= i < |packets| => CapturedPacket(LegacyTimestamp(durationUs, i, |packets|), packets[i], 0))
  }

  /**
   * The spread timestamps start at 0, never decrease, never exceed the
   * duration and end exactly at the duration when there are two packets or more.
   */
  lemma TimestampsSpread(packets: seq<seq<byte>>, durationUs: u64)
    ensures var r := Timestamped(packets, durationUs);
            && (|r| > 0 ==> r[0].timestampUs == 0)
            && (|r| > 1 ==> r[|r| - 1].timestampUs == durationUs)
            && (forall i :: 0 <= i < |r| ==> r[i].timestampUs <= durationUs)
            && (forall i, j :: 0 <= i <= j < |r| ==> r[i].timestampUs <= r[j].timestampUs)
  {
    var r := Timestamped(packets, durationUs);
    var n := |packets|;
    if n > 1 {
      MulDivCancel(durationUs, n - 1);
      assert r[n - 1].timestampUs == (durationUs * (n - 1)) / (n - 1);
    }
    forall i, j | 0 <= i <= j < n
      ensures r[i].timestampUs <= r[j].timestampUs
    {
      if n > 1 {
        MulMono(i, j, durationUs);
        DivMono(durationUs * i, durationUs * j, n - 1);
      }
    }
  }

  // ---------------------------------------------------------------------
  // The capture session
  // ---------------------------------------------------------------------

  /**
   * `CaptureState`, as a sequential object: the flag, the recorded packets,
   * the start time, the metadata and the two `u64` counters, which wrap
   * around as atomic additions do.
   */
  class CaptureState {
    var isCapturing: bool
    var packets: seq<seq<byte>>
    var startTime: Option<nat>
    var metadata: CaptureMetadata
    var packetCount: u64
    var byteCount: u64

    /** The counters describe the recorded packets, modulo 2^64. */
    predicate CountersMatch()
      reads this
    {
      packetCount == |packets| % U64_LIMIT && byteCount == TotalBytes(packets) % U64_LIMIT
    }

    /** While a capture is active the counters describe exactly what it recorded. */
    predicate Valid()
      reads this
    {
      isCapturing ==> CountersMatch()
    }

    constructor ()
      ensures Valid() && !isCapturing && packets == [] && startTime == None
      ensures metadata == DefaultMetadata() && packetCount == 0 && byteCount == 0
    {
      isCapturing := false;
      packets := [];
      startTime := None;
      metadata := DefaultMetadata();
      packetCount := 0;
      byteCount := 0;
    }

    /** Starts a session at time `now`, unless one is active. */
    method StartCapture(meta: CaptureMetadata, now: nat) returns (r: Result<(), CaptureError>)
      requires Valid()
      modifies this
      ensures Valid()
      ensures old(isCapturing) ==> r == Err(AlreadyActive) && unchanged(this)
      ensures !old(isCapturing) ==>
                && r == Ok(())
                && isCapturing && packets == [] && packetCount == 0 && byteCount == 0
                && startTime == Some(now) && metadata == meta
    {
      if isCapturing {
        return Err(AlreadyActive);
      }
      isCapturing := true;
      packets := [];
      packetCount := 0;
      byteCount := 0;
      startTime := Some(now);
      metadata := meta;
      r := Ok(());
    }

    /** The legacy `start`: a session with default metadata. */
    method Start(now: nat) returns (r: Result<(), CaptureError>)
      requires Valid()
      modifies this
      ensures Valid()
      ensures old(isCapturing) ==> r == Err(AlreadyActive) && unchanged(this)
      ensures !old(isCapturing) ==>
                && r == Ok(())
                && isCapturing && packets == [] && packetCount == 0 && byteCount == 0
                && startTime == Some(now) && metadata == DefaultMetadata()
    {
      r := StartCapture(DefaultMetadata(), now);
    }

    /** Records a packet while capturing; ignores it otherwise. */
    method RecordPacket(packet: seq<byte>)
      requires Valid()
      modifies this
      ensures Valid()
      ensures !old(isCapturing) ==> unchanged(this)
      ensures old(isCapturing) ==>
                && isCapturing && packets == old(packets) + [packet]
                && packetCount == (old(packetCount) + 1) % U64_LIMIT
                && byteCount == (old(byteCount) + |packet|) % U64_LIMIT
                && startTime == old(startTime) && metadata == old(metadata)
    {
      if !isCapturing {
        return;
      }
      TotalBytesAppend(packets, packet);
      WrapAdd(|packets|, 1);
      WrapAdd(TotalBytes(packets), |packet|);
      packetCount := (packetCount + 1) % U64_LIMIT;
      byteCount := (byteCount + |packet|) % U64_LIMIT;
      packets := packets + [packet];
    }

    /** The legacy `add_packet`: the endpoint is dropped and the packet recorded. */
    method AddPacket(data: seq<byte>, endpoint: byte)
      requires Valid()
      modifies this
      ensures Valid()
      ensures !old(isCapturing) ==> unchanged(this)
      ensures old(isCapturing) ==>
                && isCapturing && packets == old(packets) + [data]
                && packetCount == (old(packetCount) + 1) % U64_LIMIT
                && byteCount == (old(byteCount) + |data|) % U64_LIMIT
                && startTime == old(startTime) && metadata == old(metadata)
    {
      RecordPacket(data);
    }

    /** Counts one assembled frame while capturing. */
    method RecordFrame()
      requires Valid()
      modifies this
      ensures Valid()
      ensures !old(isCapturing) ==> unchanged(this)
      ensures old(isCapturing) ==>
                && metadata == old(metadata).(totalFrames := (old(metadata.totalFrames) + 1) % U64_LIMIT)
                && isCapturing == old(isCapturing) && packets == old(packets) && startTime == old(startTime)
                && packetCount == old(packetCount) && byteCount == old(byteCount)
    {
      if !isCapturing {
        return;
      }
      metadata := metadata.(totalFrames := (metadata.totalFrames + 1) % U64_LIMIT);
    }

    /**
     * Ends the session. The flag is cleared before the directory is looked
     * at, so a missing directory still ends the capture. On success the
     * metadata takes the duration and the counters, and the packet file
     * holds every recorded packet.
     */
    method StopCapture(outputDir: string, dirExists: bool, now: nat) returns (r: Result<CaptureOutput, CaptureError>)
      requires Valid()
      modifies this
      ensures Valid() && !isCapturing
      ensures !old(isCapturing) ==> r == Err(NotActive) && unchanged(this)
      ensures old(isCapturing) && !dirExists ==>
                && r == Err(DirectoryNotFound(outputDir))
                && packets == old(packets) && metadata == old(metadata) && startTime == old(startTime)
                && packetCount == old(packetCount) && byteCount == old(byteCount)
      ensures old(isCapturing) && dirExists ==>
                && metadata == old(metadata).(durationMs := (ElapsedUs(old(startTime), now) / 1000) % U64_LIMIT,
                                              totalPackets := old(packetCount),
                                              totalBytes := old(byteCount))
                && r == Ok(CaptureOutput(SavedBytes(old(packets)), metadata))
                && packets == old(packets) && startTime == old(startTime)
                && packetCount == old(packetCount) && byteCount == old(byteCount)
      ensures r.Ok? ==> (r.value.metadata.totalPackets == |packets| % U64_LIMIT
                         && r.value.metadata.totalBytes == TotalBytes(packets) % U64_LIMIT)
    {
      if !isCapturing {
        return Err(NotActive);
      }
      isCapturing := false;
      if !dirExists {
        return Err(DirectoryNotFound(outputDir));
      }
      var durationMs := (ElapsedUs(startTime, now) / 1000) % U64_LIMIT;
      metadata := metadata.(durationMs := durationMs, totalPackets := packetCount, totalBytes := byteCount);
      var file := SavePackets(packets);
      r := Ok(CaptureOutput(file, metadata));
    }

    /** Abandons the session: the flag and the packets are cleared, the counters are left. */
    method CancelCapture()
      requires Valid()
      modifies this
      ensures Valid()
      ensures !isCapturing && packets == []
      ensures startTime == old(startTime) && metadata == old(metadata)
      ensures packetCount == old(packetCount) && byteCount == old(byteCount)
    {
      isCapturing := false;
      packets := [];
    }

    /**
     * The legacy `stop`: ends the session and hands over the recorded
     * packets, in order, with timestamps spread over the elapsed time.
     */
    method Stop(now: nat) returns (captured: seq<CapturedPacket>)
      requires Valid()
      modifies this
      ensures Valid()
      ensures !isCapturing && packets == []
      ensures captured == Timestamped(old(packets), ElapsedUs(old(startTime), now) % U64_LIMIT)
      ensures startTime == old(startTime) && metadata == old(metadata)
      ensures packetCount == old(packetCount) && byteCount == old(byteCount)
    {
      isCapturing := false;
      var taken := packets;
      packets := [];
      var durationUs := ElapsedUs(startTime, now) % U64_LIMIT;
      captured := Timestamped(taken, durationUs);
    }
  }

  /**
   * A whole session: starting, recording packets one by one and stopping
   * yields a packet file that reads back as exactly those packets, with
   * totals that count them.
   */
  method RecordSession(recorded: seq<seq<byte>>, start: nat, stop: nat) returns (r: Result<CaptureOutput, CaptureError>)
    requires forall i :: 0 <= i < |recorded| ==> |recorded[i]| < U32_LIMIT
    ensures r.Ok?
    ensures ParseSaved(r.value.packetsFile, 0) == Ok(recorded)
    ensures r.value.metadata.totalPackets == |recorded| % U64_LIMIT
    ensures r.value.metadata.totalBytes == TotalBytes(recorded) % U64_LIMIT
  {
    var capture := new CaptureState();
    var started := capture.StartCapture(DefaultMetadata(), start);
    var i := 0;
    while i < |recorded|
      invariant i <= |recorded|
      invariant capture.Valid() && capture.isCapturing && capture.packets == recorded[..i]
      modifies capture
    {
      assert recorded[..i + 1] == recorded[..i] + [recorded[i]];
      capture.RecordPacket(recorded[i]);
      i := i + 1;
    }
    assert recorded[..i] == recorded;
    r := capture.StopCapture("", true, stop);
    SavedRoundTrip(recorded);
  }
}
