// The synthetic UVC packet source used to exercise the assembler: a payload
// header serialiser, a packetiser that splits a frame into header + chunk
// packets with a toggling frame identifier, and generators of YUY2 test
// patterns and of a minimal JPEG.

module PacketGenerator {
  import opened Common
  import opened FrameAssembler

  // ---------------------------------------------------------------------
  // Payload header serialisation
  // ---------------------------------------------------------------------

  /** The six source-clock-reference bytes. */
  type Scr = s: seq<byte> | |s| == 6 witness [0, 0, 0, 0, 0, 0]

  datatype UvcHeader = UvcHeader(length: byte, fid: bool, eof: bool, pts: Option<u32>, scr: Option<Scr>)

  /** A 2-byte header: length and flags only. */
  function Minimal(fid: bool, eof: bool): UvcHeader
  {
    UvcHeader(2, fid, eof, None, None)
  }

  /** A 12-byte header with a presentation time stamp and a zero clock reference. */
  function Full(fid: bool, eof: bool, pts: u32): UvcHeader
  {
    var zeroScr: Scr := [0, 0, 0, 0, 0, 0];
    UvcHeader(12, fid, eof, Some(pts), Some(zeroScr))
  }

  function BitIf(b: bool, weight: nat): nat { if b then weight else 0 }

  /** The flags byte: EOH always, then FID, EOF, PTS-present and SCR-present bits. */
  function FlagsByte(h: UvcHeader): byte
  {
    0x80 + BitIf(h.fid, 0x01) + BitIf(h.eof, 0x02) + BitIf(h.pts.Some?, 0x04) + BitIf(h.scr.Some?, 0x08)
  }

  /** `to_bytes`: length, flags, the PTS in little-endian if present, the SCR if present. */
  function ToBytes(h: UvcHeader): seq<byte>
  {
    [h.length, FlagsByte(h)]
      + (if h.pts.Some? then LeBytes(h.pts.value, 4) else [])
      + (if h.scr.Some? then h.scr.value else [])
  }

  /** The flags byte reads back as the header's FID and EOF, with EOH set and no error. */
  lemma FlagsByteDecodes(h: UvcHeader)
    ensures EndOfHeaderBit(FlagsByte(h))
    ensures FrameIdBit(FlagsByte(h)) == h.fid
    ensures EndOfFrameBit(FlagsByte(h)) == h.eof
    ensures !ErrorBit(FlagsByte(h))
    ensures (FlagsByte(h) / 4) % 2 == BitIf(h.pts.Some?, 1)
    ensures (FlagsByte(h) / 8) % 2 == BitIf(h.scr.Some?, 1)
  {
  }

  /**
   * Minimal and full headers serialise to exactly as many bytes as their
   * length field says, and the assembler recognises them in front of any
   * payload, reading back the FID, EOF and (for a full header) the PTS.
   */
  lemma HeaderRoundTrip(h: UvcHeader, payload: seq<byte>)
    requires h == Minimal(h.fid, h.eof) || (h.pts.Some? && h == Full(h.fid, h.eof, h.pts.value))
    ensures |ToBytes(h)| == h.length
    ensures var packet := ToBytes(h) + payload;
            && ValidateUvcHeader(packet) == Some(h.length as nat)
            && FrameIdBit(packet[1]) == h.fid && EndOfFrameBit(packet[1]) == h.eof && !ErrorBit(packet[1])
            && packet[h.length..] == payload
    ensures h.pts.Some? ==> FromLe(ToBytes(h)[2..6]) == h.pts.value
  {
    FlagsByteDecodes(h);
    Pow256Values();
    if h.pts.Some? {
      LeRoundTrip(h.pts.value, 4);
      assert ToBytes(h)[2..6] == LeBytes(h.pts.value, 4);
    }
    var packet := ToBytes(h) + payload;
    assert packet[h.length..] == payload;
  }

  // ---------------------------------------------------------------------
  // Packetising
  // ---------------------------------------------------------------------

  /**
   * The packets of one frame: chunks of at most `maxPayload` bytes, each
   * behind a minimal header with the given FID and EOF on the last one.
   */
  function Packetize(frame: seq<byte>, maxPayload: nat, fid: bool): seq<seq<byte>>
    requires maxPayload > 0 || |frame| == 0
    decreases |frame|
  {
    if |frame| == 0 then []
    else
      var n := Min(|frame|, maxPayload);
      [ToBytes(Minimal(fid, n >= |frame|)) + frame[..n]] + Packetize(frame[n..], maxPayload, fid)
  }

  /** The packets of the data from `offset` on: one packet, then the packets of what follows it. */
  lemma PacketizeAt(data: seq<byte>, offset: nat, maxPayload: nat, fid: bool)
    requires offset < |data| && maxPayload > 0
    ensures var n := Min(|data| - offset, maxPayload);
            Packetize(data[offset..], maxPayload, fid)
            == [ToBytes(Minimal(fid, offset + n >= |data|)) + data[offset..offset + n]]
               + Packetize(data[offset + n..], maxPayload, fid)
  {
    var n := Min(|data| - offset, maxPayload);
    assert data[offset..][..n] == data[offset..offset + n];
    assert data[offset..][n..] == data[offset + n..];
  }

  /**
   * The packetizing loop both packetize methods of the generator run: from
   * offset 0, a minimal header with the FID and EOF on the last chunk, then
   * the next chunk of at most `maxPayload` bytes.
   */
  method SplitIntoPackets(data: seq<byte>, maxPayload: nat, fid: bool) returns (packets: seq<seq<byte>>)
    requires maxPayload > 0 || |data| == 0
    ensures packets == Packetize(data, maxPayload, fid)
  {
    packets := [];
    var offset := 0;
    while offset < |data|
      invariant offset <= |data|
      invariant packets + Packetize(data[offset..], maxPayload, fid) == Packetize(data, maxPayload, fid)
      decreases |data| - offset
    {
      var packet, next := NextPacket(data, offset, maxPayload, fid);
      ghost var rest := Packetize(data[next..], maxPayload, fid);
      assert packets + ([packet] + rest) == (packets + [packet]) + rest;
      packets := packets + [packet];
      offset := next;
    }
    assert data[|data|..] == [];
  }

  /** One turn of the packetizing loop: the packet at `offset` and the offset after its chunk. */
  method NextPacket(data: seq<byte>, offset: nat, maxPayload: nat, fid: bool) returns (packet: seq<byte>, next: nat)
    requires offset < |data| && maxPayload > 0
    ensures offset < next <= |data|
    ensures Packetize(data[offset..], maxPayload, fid) == [packet] + Packetize(data[next..], maxPayload, fid)
  {
    var remaining := |data| - offset;
    var payloadSize := Min(remaining, maxPayload);
    var isLast := offset + payloadSize >= |data|;
    packet := ToBytes(Minimal(fid, isLast));
    packet := packet + data[offset..offset + payloadSize];
    next := offset + payloadSize;
    PacketizeAt(data, offset, maxPayload, fid);
  }

  /** The payloads of a list of packets with 2-byte headers. */
  function StripHeaders(packets: seq<seq<byte>>): seq<seq<byte>>
  {
    if |packets| == 0 then []
    else [if |packets[0]| >= 2 then packets[0][2..] else []] + StripHeaders(packets[1..])
  }

  /** Stripping the headers and concatenating the payloads gives back the frame. */
  lemma {:induction false} PacketizeRoundTrip(frame: seq<byte>, maxPayload: nat, fid: bool)
    requires maxPayload > 0
    ensures Flatten(StripHeaders(Packetize(frame, maxPayload, fid))) == frame
    decreases |frame|
  {
    if |frame| > 0 {
      var n := Min(|frame|, maxPayload);
      var first := ToBytes(Minimal(fid, n >= |frame|)) + frame[..n];
      var rest := Packetize(frame[n..], maxPayload, fid);
      PacketizeRoundTrip(frame[n..], maxPayload, fid);
      assert Packetize(frame, maxPayload, fid) == [first] + rest;
      assert ([first] + rest)[1..] == rest;
      assert first[2..] == frame[..n];
      assert StripHeaders([first] + rest) == [frame[..n]] + StripHeaders(rest);
      assert Flatten([frame[..n]] + StripHeaders(rest)) == frame[..n] + frame[n..];
      assert frame == frame[..n] + frame[n..];
    }
  }

  /** A frame of n > 0 bytes gives ceil(n / maxPayload) packets; an empty frame gives none. */
  lemma {:induction false} PacketizeCount(frame: seq<byte>, maxPayload: nat, fid: bool)
    requires maxPayload > 0
    ensures var count := |Packetize(frame, maxPayload, fid)|;
            && (|frame| == 0 <==> count == 0)
            && (count > 0 ==> (count - 1) * maxPayload < |frame| <= count * maxPayload)
    decreases |frame|
  {
    if |frame| > 0 {
      var n := Min(|frame|, maxPayload);
      var rest := |Packetize(frame[n..], maxPayload, fid)|;
      PacketizeCount(frame[n..], maxPayload, fid);
      assert |Packetize(frame, maxPayload, fid)| == rest + 1;
      MulSucc(rest, maxPayload);
    }
  }

  /**
   * Every packet is a minimal header (length 2, EOH, the frame's FID, EOF
   * exactly on the last packet) followed by 1 to `maxPayload` bytes.
   */
  lemma {:induction false} PacketizeShape(frame: seq<byte>, maxPayload: nat, fid: bool)
    requires maxPayload > 0
    ensures var ps := Packetize(frame, maxPayload, fid);
            forall i :: 0 <= i < |ps| ==>
              && 3 <= |ps[i]| <= maxPayload + 2
              && ps[i][..2] == ToBytes(Minimal(fid, i == |ps| - 1))
    decreases |frame|
  {
    if |frame| > 0 {
      var n := Min(|frame|, maxPayload);
      var ps := Packetize(frame, maxPayload, fid);
      var rest := Packetize(frame[n..], maxPayload, fid);
      PacketizeShape(frame[n..], maxPayload, fid);
      PacketizeCount(frame[n..], maxPayload, fid);
      assert ps == [ToBytes(Minimal(fid, n >= |frame|)) + frame[..n]] + rest;
      forall i | 0 <= i < |ps|
        ensures 3 <= |ps[i]| <= maxPayload + 2
        ensures ps[i][..2] == ToBytes(Minimal(fid, i == |ps| - 1))
      {
        if i > 0 {
          assert ps[i] == rest[i - 1];
        }
      }
    }
  }

  /** Every packet of a frame is recognised by the assembler, with the frame's FID, and EOF only on the last. */
  lemma PacketizedHeadersDecode(frame: seq<byte>, maxPayload: nat, fid: bool, i: nat)
    requires maxPayload > 0
    requires i < |Packetize(frame, maxPayload, fid)|
    ensures var ps := Packetize(frame, maxPayload, fid);
            && ValidateUvcHeader(ps[i]) == Some(2)
            && FrameIdBit(ps[i][1]) == fid
            && EndOfFrameBit(ps[i][1]) == (i == |ps| - 1)
            && !ErrorBit(ps[i][1])
  {
    PacketizeShape(frame, maxPayload, fid);
    var ps := Packetize(frame, maxPayload, fid);
    var h := Minimal(fid, i == |ps| - 1);
    HeaderRoundTrip(h, ps[i][2..]);
    assert ps[i] == ToBytes(h) + ps[i][2..];
  }

  // ---------------------------------------------------------------------
  // Test patterns
  // ---------------------------------------------------------------------

  /** A colour as the (Y, U, V) byte triple the generators are given. */
  datatype Yuv = Yuv(y: byte, u: byte, v: byte)

  /** One YUY2 macropixel (two pixels of the same colour): Y0 U Y1 V. */
  function Macropixel(c: Yuv): seq<byte>
  {
    [c.y, c.u, c.y, c.v]
  }

  datatype Pattern =
    | Solid(color: Yuv)
    | Checkerboard(white: Yuv, black: Yuv)
    | ColorBars(bars: seq<Yuv>)
    | Crosshatch(white: Yuv, black: Yuv, spacing: nat)

  /**
   * What a pattern needs of the frame size for every macropixel to be
   * defined: eight bars, none of zero width, and a non-zero grid spacing,
   * whenever there is a pixel to colour.
   */
  predicate Drawable(p: Pattern, width: nat, height: nat)
  {
    && (p.ColorBars? ==> |p.bars| == 8 && (width >= 8 || width / 2 == 0 || height == 0))
    && (p.Crosshatch? ==> p.spacing > 0 || height == 0)
  }

  /**
   * A pattern is drawable exactly when the original divides by no zero: the
   * bar width `width / 8` is only a divisor once some row (height > 0) has a
   * macropixel (width / 2 > 0), and the grid spacing once some row exists.
   */
  lemma DrawableExactlyWithoutZeroDivisor(width: nat, height: nat, bars: seq<Yuv>, white: Yuv, black: Yuv, spacing: nat)
    requires |bars| == 8
    ensures Drawable(ColorBars(bars), width, height) <==> !(width / 8 == 0 && width / 2 > 0 && height > 0)
    ensures Drawable(Crosshatch(white, black, spacing), width, height) <==> !(spacing == 0 && height > 0)
  {
  }

  /** The bar (of eight, each width / 8 pixels wide) that pixel 2x falls in; the remainder columns join the last bar. */
  function Bar(width: nat, x: nat): (bar: nat)
    requires width >= 8
    ensures bar < 8
  {
    Min((x * 2) / (width / 8), 7)
  }

  /** The colour of macropixel x (pixels 2x and 2x + 1) in the given row. */
  function MacroColor(p: Pattern, width: nat, row: nat, x: nat): Yuv
    requires p.ColorBars? ==> |p.bars| == 8 && width >= 8
    requires p.Crosshatch? ==> p.spacing > 0
  {
    match p
    case Solid(c) => c
    case Checkerboard(white, black) =>
      if ((x * 2) / 8 + row / 8) % 2 == 0 then white else black
    case ColorBars(bars) =>
      bars[Bar(width, x)]
    case Crosshatch(white, black, spacing) =>
      if row % spacing == 0 || (x * 2) % spacing == 0 then white else black
  }

  /** The first x macropixels of a row. */
  function RowPrefix(p: Pattern, width: nat, height: nat, row: nat, x: nat): seq<byte>
    requires Drawable(p, width, height) && row < height && x <= width / 2
  {
    if x == 0 then []
    else RowPrefix(p, width, height, row, x - 1) + Macropixel(MacroColor(p, width, row, x - 1))
  }

  /** The first n rows of a frame. */
  function Rows(p: Pattern, width: nat, height: nat, n: nat): seq<byte>
    requires Drawable(p, width, height) && n <= height
  {
    if n == 0 then []
    else Rows(p, width, height, n - 1) + RowPrefix(p, width, height, n - 1, width / 2)
  }

  /** A whole YUY2 frame of the pattern, row after row. */
  function Image(p: Pattern, width: nat, height: nat): seq<byte>
    requires Drawable(p, width, height)
  {
    Rows(p, width, height, height)
  }

  lemma {:induction false} RowPrefixAt(p: Pattern, width: nat, height: nat, row: nat, x: nat, i: nat, k: nat)
    requires Drawable(p, width, height) && row < height && x <= width / 2
    requires i < x && k < 4
    ensures |RowPrefix(p, width, height, row, x)| == x * 4
    ensures RowPrefix(p, width, height, row, x)[i * 4 + k] == Macropixel(MacroColor(p, width, row, i))[k]
  {
    RowPrefixLength(p, width, height, row, x - 1);
    if i < x - 1 {
      RowPrefixAt(p, width, height, row, x - 1, i, k);
    }
  }

  lemma {:induction false} RowPrefixLength(p: Pattern, width: nat, height: nat, row: nat, x: nat)
    requires Drawable(p, width, height) && row < height && x <= width / 2
    ensures |RowPrefix(p, width, height, row, x)| == x * 4
  {
    if x > 0 {
      RowPrefixLength(p, width, height, row, x - 1);
    }
  }

  lemma {:induction false} RowsLength(p: Pattern, width: nat, height: nat, n: nat)
    requires Drawable(p, width, height) && n <= height
    ensures |Rows(p, width, height, n)| == n * (width / 2) * 4
  {
    if n > 0 {
      RowsLength(p, width, height, n - 1);
      RowPrefixLength(p, width, height, n - 1, width / 2);
      MulSucc(n - 1, width / 2);
    }
  }

  lemma {:induction false} RowsPrefix(p: Pattern, width: nat, height: nat, a: nat, n: nat)
    requires Drawable(p, width, height) && a <= n <= height
    ensures Rows(p, width, height, a) <= Rows(p, width, height, n)
  {
    if a < n {
      RowsPrefix(p, width, height, a, n - 1);
    }
  }

  lemma RowsAt(p: Pattern, width: nat, height: nat, n: nat, row: nat, x: nat, k: nat)
    requires Drawable(p, width, height) && n <= height
    requires row < n && x < width / 2 && k < 4
    ensures (row * (width / 2) + x) * 4 + k < |Rows(p, width, height, n)|
    ensures Rows(p, width, height, n)[(row * (width / 2) + x) * 4 + k] == Macropixel(MacroColor(p, width, row, x))[k]
  {
    var m := width / 2;
    var before, last := Rows(p, width, height, row), RowPrefix(p, width, height, row, m);
    RowsPrefix(p, width, height, row + 1, n);
    RowsLength(p, width, height, row);
    RowPrefixAt(p, width, height, row, m, x, k);
    PrefixAt(Rows(p, width, height, n), before, last, x * 4 + k);
    assert (row * m + x) * 4 + k == |before| + (x * 4 + k);
  }

  /** Byte j of the part after `before`, in any string that starts with `before + last`. */
  lemma PrefixAt(whole: seq<byte>, before: seq<byte>, last: seq<byte>, j: nat)
    requires before + last <= whole && j < |last|
    ensures |before| + j < |whole| && whole[|before| + j] == last[j]
  {
    assert (before + last)[|before| + j] == last[j];
  }

  lemma MacroIndex(row: nat, n: nat, m: nat, x: nat, k: nat)
    requires row < n && x < m && k < 4
    ensures (row * m + x) * 4 + k == row * m * 4 + (x * 4 + k)
    ensures (row * m + x) * 4 + k < (row + 1) * m * 4 <= n * m * 4
  {
    MulSucc(row, m);
    assert (row + 1) * m <= n * m by {
      MulMono(row + 1, n, m);
    }
  }

  /** Macropixel number `index` of a frame exists and shows colour `c`. */
  predicate MacropixelAt(frame: seq<byte>, index: nat, c: Yuv)
  {
    index * 4 + 4 <= |frame| && frame[index * 4..index * 4 + 4] == Macropixel(c)
  }

  /**
   * Layout of every generated frame: h * (w/2) macropixels of 4 bytes, row
   * after row; macropixel x of row `row` holds the pattern's colour there.
   */
  lemma ImageLayout(p: Pattern, width: nat, height: nat, row: nat, x: nat)
    requires Drawable(p, width, height) && row < height && x < width / 2
    ensures |Image(p, width, height)| == height * (width / 2) * 4
    ensures MacropixelAt(Image(p, width, height), row * (width / 2) + x, MacroColor(p, width, row, x))
  {
    RowsLength(p, width, height, height);
    var img := Image(p, width, height);
    var c := MacroColor(p, width, row, x);
    MulNat(row, width / 2);
    var index: nat := row * (width / 2) + x;
    MacroIndex(row, height, width / 2, x, 3);
    forall k | 0 <= k < 4
      ensures index * 4 + k < |img| && img[index * 4 + k] == Macropixel(c)[k]
    {
      RowsAt(p, width, height, height, row, x, k);
    }
    FourBytes(img, index * 4, Macropixel(c));
  }

  /** Four bytes that agree one by one form the same four-byte slice. */
  lemma FourBytes(s: seq<byte>, at: nat, m: seq<byte>)
    requires |m| == 4 && at + 4 <= |s|
    requires forall k :: 0 <= k < 4 ==> s[at + k] == m[k]
    ensures s[at..at + 4] == m
  {
    assert s[at..at + 4][0] == m[0] && s[at..at + 4][1] == m[1];
    assert s[at..at + 4][2] == m[2] && s[at..at + 4][3] == m[3];
  }

  /** Appending whole macropixels of one colour keeps a byte string (Y, U, Y, V)-periodic. */
  lemma AppendUniform(a: seq<byte>, b: seq<byte>, c: Yuv)
    requires |a| % 4 == 0
    requires forall i :: 0 <= i < |a| ==> a[i] == Macropixel(c)[i % 4]
    requires forall i :: 0 <= i < |b| ==> b[i] == Macropixel(c)[i % 4]
    ensures forall i :: 0 <= i < |a + b| ==> (a + b)[i] == Macropixel(c)[i % 4]
  {
    forall i | |a| <= i < |a + b| ensures (a + b)[i] == Macropixel(c)[i % 4] {
      assert (i - |a|) % 4 == i % 4;
    }
  }

  lemma {:induction false} SolidRowUniform(c: Yuv, width: nat, height: nat, row: nat, x: nat)
    requires row < height && x <= width / 2
    ensures forall i :: 0 <= i < |RowPrefix(Solid(c), width, height, row, x)| ==>
              RowPrefix(Solid(c), width, height, row, x)[i] == Macropixel(c)[i % 4]
  {
    if x > 0 {
      SolidRowUniform(c, width, height, row, x - 1);
      RowPrefixLength(Solid(c), width, height, row, x - 1);
      AppendUniform(RowPrefix(Solid(c), width, height, row, x - 1), Macropixel(c), c);
    }
  }

  lemma {:induction false} SolidRowsUniform(c: Yuv, width: nat, height: nat, n: nat)
    requires n <= height
    ensures forall i :: 0 <= i < |Rows(Solid(c), width, height, n)| ==>
              Rows(Solid(c), width, height, n)[i] == Macropixel(c)[i % 4]
  {
    if n > 0 {
      var before, last := Rows(Solid(c), width, height, n - 1), RowPrefix(Solid(c), width, height, n - 1, width / 2);
      SolidRowsUniform(c, width, height, n - 1);
      SolidRowUniform(c, width, height, n - 1, width / 2);
      RowsLength(Solid(c), width, height, n - 1);
      MulNat(n - 1, width / 2);
      var macropixels: nat := (n - 1) * (width / 2);
      assert |before| == macropixels * 4;
      AppendUniform(before, last, c);
    }
  }

  /** A solid frame has h * (w/2) * 4 bytes, every 4-byte group being (Y, U, Y, V). */
  lemma SolidFrameUniform(c: Yuv, width: nat, height: nat)
    ensures |Image(Solid(c), width, height)| == height * (width / 2) * 4
    ensures forall i :: 0 <= i < |Image(Solid(c), width, height)| ==>
              Image(Solid(c), width, height)[i] == [c.y, c.u, c.y, c.v][i % 4]
  {
    RowsLength(Solid(c), width, height, height);
    SolidRowsUniform(c, width, height, height);
  }

  /** In a crosshatch, macropixel (row, x) is white exactly on every spacing-th row or pixel column. */
  lemma CrosshatchLines(white: Yuv, black: Yuv, spacing: nat, width: nat, height: nat, row: nat, x: nat)
    requires spacing > 0 && row < height && x < width / 2
    ensures MacropixelAt(Image(Crosshatch(white, black, spacing), width, height), row * (width / 2) + x,
                         if row % spacing == 0 || (2 * x) % spacing == 0 then white else black)
  {
    ImageLayout(Crosshatch(white, black, spacing), width, height, row, x);
  }

  /** In a checkerboard, macropixel (row, x) is white exactly when its 8x8 block indices sum to an even number. */
  lemma CheckerboardBlocks(white: Yuv, black: Yuv, width: nat, height: nat, row: nat, x: nat)
    requires row < height && x < width / 2
    ensures MacropixelAt(Image(Checkerboard(white, black), width, height), row * (width / 2) + x,
                         if ((2 * x) / 8 + row / 8) % 2 == 0 then white else black)
  {
    ImageLayout(Checkerboard(white, black), width, height, row, x);
  }

  /** In colour bars, macropixel x shows bar min(2x / (w/8), 7), the same in every row. */
  lemma ColorBarsColumns(bars: seq<Yuv>, width: nat, height: nat, row: nat, x: nat)
    requires |bars| == 8 && width >= 8 && row < height && x < width / 2
    ensures MacropixelAt(Image(ColorBars(bars), width, height), row * (width / 2) + x, bars[Bar(width, x)])
  {
    ImageLayout(ColorBars(bars), width, height, row, x);
  }

  /** n copies of one byte. */
  function Fill(n: nat, b: byte): (s: seq<byte>)
    ensures |s| == n && forall i :: 0 <= i < n ==> s[i] == b
  {
    if n == 0 then [] else Fill(n - 1, b) + [b]
  }

  /** Start of image and a JFIF APP0 segment: version 1.1, no density units, 1:1 aspect. */
  const JPEG_SOI_APP0: seq<byte> := [
    0xFF, 0xD8,
    0xFF, 0xE0, 0x00, 0x10,
    0x4A, 0x46, 0x49, 0x46, 0x00,
    0x01, 0x01,
    0x00,
    0x00, 0x01,
    0x00, 0x01,
    0x00, 0x00]

  /** One quantisation table with every entry 16. */
  const JPEG_DQT: seq<byte> := [0xFF, 0xDB, 0x00, 0x43, 0x00] + Fill(64, 16)

  /** Baseline 8x8 frame header with three components, no subsampling. */
  const JPEG_SOF0: seq<byte> := [
    0xFF, 0xC0, 0x00, 0x11, 0x08, 0x00, 0x08, 0x00, 0x08, 0x03,
    0x01, 0x11, 0x00, 0x02, 0x11, 0x00, 0x03, 0x11, 0x00]

  /** The standard luminance DC Huffman table. */
  const JPEG_DHT_DC: seq<byte> := [
    0xFF, 0xC4, 0x00, 0x1F, 0x00,
    0x00, 0x01, 0x05, 0x01, 0x01, 0x01, 0x01, 0x01, 0x01, 0x00, 0x00, 0x00, 0x00, 0x00,
    0x00, 0x00, 0x00, 0x01, 0x02, 0x03, 0x04, 0x05, 0x06, 0x07, 0x08, 0x09, 0x0A, 0x0B]

  /** A truncated AC Huffman table header, as the generator writes it. */
  const JPEG_DHT_AC: seq<byte> := [0xFF, 0xC4, 0x00, 0xB5, 0x10] + [0x02] + Fill(15, 0) + [0x01, 0x02]

  /** Start of scan for the three components. */
  const JPEG_SOS: seq<byte> := [0xFF, 0xDA, 0x00, 0x0C, 0x03, 0x01, 0x00, 0x02, 0x00, 0x03, 0x00, 0x00, 0x3F, 0x00]

  /** The fixed minimal JPEG: SOI, APP0, DQT, SOF0, two DHT, SOS, two scan bytes, EOI. */
  function MinimalJpeg(color: Yuv): (jpeg: seq<byte>)
    ensures IsJpegData(jpeg)
    ensures |jpeg| == 182 && jpeg[|jpeg| - 2..] == [0xFF, 0xD9]
  {
    var body := JPEG_SOI_APP0 + JPEG_DQT + JPEG_SOF0 + JPEG_DHT_DC + JPEG_DHT_AC + JPEG_SOS + [0x7F, 0xFF];
    assert |body| == 180 && body[0] == 0xFF && body[1] == 0xD8;
    body + [0xFF, 0xD9]
  }

  // ---------------------------------------------------------------------
  // The generator object
  // ---------------------------------------------------------------------

  class PacketGenerator {
    var maxPayloadSize: nat
    var currentFid: bool

    constructor (maxPayloadSize: nat)
      ensures this.maxPayloadSize == maxPayloadSize && !currentFid
    {
      this.maxPayloadSize := maxPayloadSize;
      currentFid := false;
    }

    /**
     * Splits a YUY2 frame into packets. The FID flips first, so every call
     * marks a new frame; all packets of the call carry the new FID.
     */
    method PacketizeFrame(frameData: seq<byte>, expectedSize: nat) returns (packets: seq<seq<byte>>)
      requires maxPayloadSize > 0 || |frameData| == 0
      modifies this
      ensures maxPayloadSize == old(maxPayloadSize) && currentFid == !old(currentFid)
      ensures packets == Packetize(frameData, maxPayloadSize, currentFid)
    {
      currentFid := !currentFid;
      packets := SplitIntoPackets(frameData, maxPayloadSize, currentFid);
    }

    /** Splits a JPEG into packets, exactly as `PacketizeFrame` does. */
    method PacketizeFrameMjpeg(jpegData: seq<byte>) returns (packets: seq<seq<byte>>)
      requires maxPayloadSize > 0 || |jpegData| == 0
      modifies this
      ensures maxPayloadSize == old(maxPayloadSize) && currentFid == !old(currentFid)
      ensures packets == Packetize(jpegData, maxPayloadSize, currentFid)
    {
      currentFid := !currentFid;
      packets := SplitIntoPackets(jpegData, maxPayloadSize, currentFid);
    }

    method GenerateYuy2Solid(width: nat, height: nat, color: Yuv) returns (frame: seq<byte>)
      requires width * height * 2 < U32_LIMIT
      ensures frame == Image(Solid(color), width, height)
    {
      ghost var p := Solid(color);
      frame := [];
      var row := 0;
      while row < height
        invariant row <= height
        invariant frame == Rows(p, width, height, row)
      {
        var x := 0;
        while x < width / 2
          invariant x <= width / 2
          invariant frame == Rows(p, width, height, row) + RowPrefix(p, width, height, row, x)
        {
          frame := frame + [color.y, color.u, color.y, color.v];
          x := x + 1;
        }
        row := row + 1;
      }
    }

    method GenerateYuy2Checkerboard(width: nat, height: nat, white: Yuv, black: Yuv) returns (frame: seq<byte>)
      requires width * height * 2 < U32_LIMIT
      ensures frame == Image(Checkerboard(white, black), width, height)
    {
      ghost var p := Checkerboard(white, black);
      var blockSize := 8;
      frame := [];
      var row := 0;
      while row < height
        invariant row <= height
        invariant frame == Rows(p, width, height, row)
      {
        var x := 0;
        while x < width / 2
          invariant x <= width / 2
          invariant frame == Rows(p, width, height, row) + RowPrefix(p, width, height, row, x)
        {
          var blockX := (x * 2) / blockSize;
          var blockY := row / blockSize;
          var isWhite := (blockX + blockY) % 2 == 0;
          var c := if isWhite then white else black;
          assert c == MacroColor(p, width, row, x);
          frame := frame + [c.y, c.u, c.y, c.v];
          x := x + 1;
        }
        row := row + 1;
      }
    }

    method GenerateYuy2ColorBars(width: nat, height: nat, colors: seq<Yuv>) returns (frame: seq<byte>)
      requires width * height * 2 < U32_LIMIT
      requires Drawable(ColorBars(colors), width, height)
      ensures frame == Image(ColorBars(colors), width, height)
    {
      ghost var p := ColorBars(colors);
      var barWidth := width / |colors|;
      frame := [];
      var row := 0;
      while row < height
        invariant row <= height
        invariant frame == Rows(p, width, height, row)
      {
        var x := 0;
        while x < width / 2
          invariant x <= width / 2
          invariant frame == Rows(p, width, height, row) + RowPrefix(p, width, height, row, x)
        {
          var pixelX := x * 2;
          var barIndex := Min(pixelX / barWidth, |colors| - 1);
          assert barIndex == Bar(width, x) by {
            assert width >= 8 && barWidth == width / 8;
          }
          var c := colors[barIndex];
          assert c == MacroColor(p, width, row, x);
          frame := frame + [c.y, c.u, c.y, c.v];
          x := x + 1;
        }
        row := row + 1;
      }
    }

    method GenerateYuy2Crosshatch(width: nat, height: nat, gridSpacing: nat, white: Yuv, black: Yuv)
      returns (frame: seq<byte>)
      requires width * height * 2 < U32_LIMIT
      requires gridSpacing > 0 || height == 0
      ensures frame == Image(Crosshatch(white, black, gridSpacing), width, height)
    {
      ghost var p := Crosshatch(white, black, gridSpacing);
      frame := [];
      var row := 0;
      while row < height
        invariant row <= height
        invariant frame == Rows(p, width, height, row)
      {
        var isHorizontalLine := row % gridSpacing == 0;
        var x := 0;
        while x < width / 2
          invariant x <= width / 2
          invariant frame == Rows(p, width, height, row) + RowPrefix(p, width, height, row, x)
        {
          var pixelX := x * 2;
          var isVerticalLine := pixelX % gridSpacing == 0;
          var c := if isHorizontalLine || isVerticalLine then white else black;
          assert c == MacroColor(p, width, row, x);
          frame := frame + [c.y, c.u, c.y, c.v];
          x := x + 1;
        }
        row := row + 1;
      }
    }
  }
}
