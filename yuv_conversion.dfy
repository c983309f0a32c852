// YUV to RGB conversion on the desktop path: stride detection, BT.601
// integer conversion with clamping, and the buffer-filling conversions for
// packed 4:2:2 (YUYV/UYVY), planar I420, semi-planar NV12, RGB888
// pass-through and BGR888 channel swap.

module YuvConversion {
  import opened Common

  /** Byte order of a packed 4:2:2 macropixel. */
  datatype YuvPackedFormat = Yuyv | Uyvy

  const DEFAULT_PACKED_FORMAT: YuvPackedFormat := Yuyv

  /** Input shorter than the dimensions require; the message text is not modelled. */
  datatype ConversionError = DataTooSmall(actual: nat, required: nat)

  // ---------------------------------------------------------------------
  // Stride detection

  /**
   * Bytes per row of a YUY2 frame: the standard `2*width` when the frame
   * has exactly the standard size, otherwise `frameSize / height` when that
   * lies between the standard stride and 120% of it, and the standard
   * stride again when it does not. The frame size is truncated to 32 bits
   * as the original's cast does.
   */
  function CalculateYuy2Stride(frameSize: nat, width: nat, height: nat): (stride: nat)
    requires 2 * width * height < U32_LIMIT && 24 * width < U32_LIMIT
    requires height > 0 || frameSize == 0
    ensures frameSize == 2 * width * height ==> stride == 2 * width
    ensures 2 * width <= stride <= 2 * width * 12 / 10
    ensures stride != 2 * width ==>
              stride == (frameSize % U32_LIMIT) / height && stride * height <= frameSize % U32_LIMIT
    // a padded stride within the 20% tolerance is detected
    ensures frameSize != 2 * width * height && height > 0 &&
            2 * width <= (frameSize % U32_LIMIT) / height <= 2 * width * 12 / 10 ==>
              stride == (frameSize % U32_LIMIT) / height
  {
    var expectedStride := width * 2;
    var expectedSize := expectedStride * height;
    if frameSize == expectedSize then expectedStride
    else
      var actualStride := (frameSize % U32_LIMIT) / height;
      var maxReasonableStride := expectedStride * 12 / 10;
      if actualStride >= expectedStride && actualStride <= maxReasonableStride then actualStride
      else expectedStride
  }

  /** A 640x480 frame whose rows are padded to 1344 bytes is read with that stride. */
  lemma PaddedStrideDetected()
    ensures CalculateYuy2Stride(1344 * 480, 640, 480) == 1344
  {
  }

  /** A frame 50% larger than standard is not taken as padded: the standard stride is kept. */
  lemma ExcessivePaddingIgnored()
    ensures CalculateYuy2Stride(1920 * 480, 640, 480) == 1280
  {
  }

  // ---------------------------------------------------------------------
  // One pixel

  datatype Rgb = Rgb(r: byte, g: byte, b: byte)

  function RgbBytes(c: Rgb): seq<byte>
  {
    [c.r, c.g, c.b]
  }

  /** Saturation to the byte range. */
  function ClampU8(v: int): byte
  {
    if v < 0 then 0 else if v > 255 then 255 else v
  }

  /**
   * An arithmetic right shift by 8 of a 32-bit signed value: division by 256
   * rounded towards minus infinity, which Dafny's `/` by a positive divisor is.
   */
  function Shr8(v: int): int
  {
    v / 256
  }

  /** BT.601 limited-range YUV to RGB in fixed point (coefficients scaled by 256). */
  function YuvToRgb(y: byte, u: byte, v: byte): Rgb
  {
    var y' := y - 16;
    var u' := u - 128;
    var v' := v - 128;
    Rgb(ClampU8(Shr8(298 * y' + 409 * v' + 128)),
        ClampU8(Shr8(298 * y' - 100 * u' - 208 * v' + 128)),
        ClampU8(Shr8(298 * y' + 516 * u' + 128)))
  }

  /** Neutral chroma gives a grey: all three channels equal. */
  lemma NeutralChromaIsGrey(y: byte)
    ensures var c := YuvToRgb(y, 128, 128); c.r == c.g == c.b
  {
  }

  lemma ClampMonotone(a: int, b: int)
    requires a <= b
    ensures ClampU8(a) <= ClampU8(b)
  {
  }

  lemma Shr8Monotone(a: int, b: int)
    requires a <= b
    ensures Shr8(a) <= Shr8(b)
  {
    var qa, qb := Shr8(a), Shr8(b);
    assert 256 * qa <= a && b < 256 * qb + 256;
  }

  /** A brighter luma never gives a darker channel. */
  lemma YuvToRgbMonotoneInLuma(y1: byte, y2: byte, u: byte, v: byte)
    requires y1 <= y2
    ensures YuvToRgb(y1, u, v).r <= YuvToRgb(y2, u, v).r
    ensures YuvToRgb(y1, u, v).g <= YuvToRgb(y2, u, v).g
    ensures YuvToRgb(y1, u, v).b <= YuvToRgb(y2, u, v).b
  {
    var u', v' := u - 128, v - 128;
    var a, b := 298 * (y1 - 16), 298 * (y2 - 16);
    Shr8Monotone(a + 409 * v' + 128, b + 409 * v' + 128);
    ClampMonotone(Shr8(a + 409 * v' + 128), Shr8(b + 409 * v' + 128));
    Shr8Monotone(a - 100 * u' - 208 * v' + 128, b - 100 * u' - 208 * v' + 128);
    ClampMonotone(Shr8(a - 100 * u' - 208 * v' + 128), Shr8(b - 100 * u' - 208 * v' + 128));
    Shr8Monotone(a + 516 * u' + 128, b + 516 * u' + 128);
    ClampMonotone(Shr8(a + 516 * u' + 128), Shr8(b + 516 * u' + 128));
  }

  /** The ends of the limited luma range with neutral chroma are black and white. */
  lemma LimitedRangeEndpoints()
    ensures YuvToRgb(16, 128, 128) == Rgb(0, 0, 0)
    ensures YuvToRgb(235, 128, 128) == Rgb(255, 255, 255)
  {
  }

  // ---------------------------------------------------------------------
  // Filling a zeroed output buffer in order

  function Zeros(n: nat): (z: seq<byte>)
    ensures |z| == n
  {
    if n == 0 then [] else Zeros(n - 1) + [0]
  }

  lemma {:induction false} ZerosAt(n: nat, i: nat)
    requires i < n
    ensures Zeros(n)[i] == 0
  {
    if i < n - 1 {
      ZerosAt(n - 1, i);
    }
  }

  lemma {:induction false} ZerosSplit(a: nat, b: nat)
    ensures Zeros(a + b) == Zeros(a) + Zeros(b)
    decreases b
  {
    if b > 0 {
      ZerosSplit(a, b - 1);
    }
  }

  /**
   * Writing one pixel's three bytes right after the filled prefix of a
   * buffer that is zero beyond it extends the prefix by that pixel.
   */
  lemma WritePixel(buffer: seq<byte>, prefix: seq<byte>, c: Rgb, n: nat)
    requires |prefix| + 3 <= n && buffer == prefix + Zeros(n - |prefix|)
    ensures buffer[|prefix| := c.r][|prefix| + 1 := c.g][|prefix| + 2 := c.b]
            == (prefix + RgbBytes(c)) + Zeros(n - |prefix| - 3)
  {
    var k := |prefix|;
    var written := buffer[k := c.r][k + 1 := c.g][k + 2 := c.b];
    var expected := (prefix + RgbBytes(c)) + Zeros(n - k - 3);
    assert |written| == |expected|;
    forall i | 0 <= i < |written| ensures written[i] == expected[i] {
      if i >= k + 3 {
        ZerosAt(n - k, i - k);
        ZerosAt(n - k - 3, i - k - 3);
      }
    }
  }

  /**
   * Stopping at pixel `col` once every pixel from there to the end of the
   * row is black leaves the buffer holding the whole row.
   */
  lemma RowStopsEarly(buffer: seq<byte>, done: seq<byte>, ps: seq<Rgb>, col: nat, width: nat, n: nat)
    requires col <= width == |ps| && |done| + 3 * width <= n
    requires forall c :: col <= c < width ==> ps[c] == Rgb(0, 0, 0)
    requires buffer == done + PixelBytes(ps, col) + Zeros(n - |done| - 3 * col)
    ensures buffer == done + PixelBytes(ps, width) + Zeros(n - |done| - 3 * width)
  {
    BlackTail(ps, col, width);
    ZerosSplit(3 * (width - col), n - |done| - 3 * width);
    assert done + PixelBytes(ps, col) + (Zeros(3 * (width - col)) + Zeros(n - |done| - 3 * width))
           == done + (PixelBytes(ps, col) + Zeros(3 * (width - col))) + Zeros(n - |done| - 3 * width);
  }

  // ---------------------------------------------------------------------
  // Images: rows of pixels and the bytes they are stored as

  /** The RGB bytes of the first `n` pixels of a row, three per pixel. */
  function PixelBytes(ps: seq<Rgb>, n: nat): (s: seq<byte>)
    requires n <= |ps|
    ensures |s| == 3 * n
  {
    if n == 0 then [] else PixelBytes(ps, n - 1) + RgbBytes(ps[n - 1])
  }

  /** `height` rows of `width` pixels each. */
  predicate IsImage(img: seq<seq<Rgb>>, width: nat, height: nat)
  {
    |img| == height && forall r :: 0 <= r < height ==> |img[r]| == width
  }

  /** The RGB bytes of the first `n` rows of an image, row after row. */
  function ImageBytes(img: seq<seq<Rgb>>, n: nat): seq<byte>
    requires n <= |img|
  {
    if n == 0 then [] else ImageBytes(img, n - 1) + PixelBytes(img[n - 1], |img[n - 1]|)
  }

  lemma {:induction false} ImageBytesLength(img: seq<seq<Rgb>>, width: nat, height: nat, n: nat)
    requires IsImage(img, width, height) && n <= height
    ensures |ImageBytes(img, n)| == n * (3 * width)
  {
    if n > 0 {
      ImageBytesLength(img, width, height, n - 1);
      MulSucc(n - 1, 3 * width);
    }
  }

  /** The three bytes of pixel `c` sit at `3 * c` in the bytes of any longer prefix of the row. */
  lemma {:induction false} PixelBytesAt(ps: seq<Rgb>, n: nat, c: nat)
    requires c < n <= |ps|
    ensures PixelBytes(ps, n)[3 * c..3 * c + 3] == RgbBytes(ps[c])
  {
    if c < n - 1 {
      PixelBytesAt(ps, n - 1, c);
      assert PixelBytes(ps, n)[..3 * (n - 1)] == PixelBytes(ps, n - 1);
    }
  }

  /**
   * Pixel (r, c) of an image is stored at byte `(r * width + c) * 3` of its
   * bytes, as the conversions compute `row * rgb_stride + col * 3`.
   */
  /** The bytes of the first rows of an image begin the bytes of any more rows of it. */
  lemma {:induction false} ImageBytesPrefix(img: seq<seq<Rgb>>, m: nat, n: nat)
    requires m <= n <= |img|
    ensures ImageBytes(img, m) <= ImageBytes(img, n)
    decreases n
  {
    if m < n {
      ImageBytesPrefix(img, m, n - 1);
      PrefixOfAppend(ImageBytes(img, m), ImageBytes(img, n - 1), PixelBytes(img[n - 1], |img[n - 1]|));
    }
  }

  lemma PrefixOfAppend(a: seq<byte>, b: seq<byte>, c: seq<byte>)
    requires a <= b
    ensures a <= b + c
  {
    assert (b + c)[..|a|] == b[..|a|];
  }

  lemma SliceOfPrefix(a: seq<byte>, b: seq<byte>, i: nat, j: nat)
    requires a <= b && i <= j <= |a|
    ensures b[i..j] == a[i..j]
  {
    assert b[..|a|] == a;
  }

  /**
   * Pixel (r, c) of an image is stored at byte `r * (3 * width) + 3 * c` of
   * its bytes, as the conversions compute `row * rgb_stride + col * 3`.
   */
  lemma ImageBytesAt(img: seq<seq<Rgb>>, width: nat, height: nat, n: nat, r: nat, c: nat)
    requires IsImage(img, width, height) && r < n <= height && c < width
    ensures var bytes, k := ImageBytes(img, n), r * (3 * width) + 3 * c;
            k + 3 <= |bytes| && bytes[k..k + 3] == RgbBytes(img[r][c])
  {
    var before := ImageBytes(img, r);
    var row := PixelBytes(img[r], |img[r]|);
    var k := r * (3 * width) + 3 * c;
    ImageBytesLength(img, width, height, r);
    ImageBytesPrefix(img, r + 1, n);
    PixelBytesAt(img[r], width, c);
    SliceOfAppendRight(before, row, k, k + 3);
    SliceOfPrefix(before + row, ImageBytes(img, n), k, k + 3);
  }

  lemma SliceOfAppendLeft(a: seq<byte>, b: seq<byte>, i: nat, j: nat)
    requires i <= j <= |a|
    ensures (a + b)[i..j] == a[i..j]
  {
  }

  lemma SliceOfAppendRight(a: seq<byte>, b: seq<byte>, i: nat, j: nat)
    requires |a| <= i <= j <= |a| + |b|
    ensures (a + b)[i..j] == b[i - |a|..j - |a|]
  {
  }

  /** Appending pixel `col` to a row's converted prefix. */
  lemma PixelStep(done: seq<byte>, ps: seq<Rgb>, col: nat)
    requires col < |ps|
    ensures done + PixelBytes(ps, col + 1) == (done + PixelBytes(ps, col)) + RgbBytes(ps[col])
  {
    assert PixelBytes(ps, col + 1) == PixelBytes(ps, col) + RgbBytes(ps[col]);
  }

  /** A row whose pixels from `from` on are black ends in zero bytes. */
  lemma {:induction false} BlackTail(ps: seq<Rgb>, from: nat, n: nat)
    requires from <= n <= |ps|
    requires forall c :: from <= c < n ==> ps[c] == Rgb(0, 0, 0)
    ensures PixelBytes(ps, n) == PixelBytes(ps, from) + Zeros(3 * (n - from))
  {
    if n > from {
      BlackTail(ps, from, n - 1);
      ZerosSplit(3 * (n - 1 - from), 3);
      assert Zeros(3) == RgbBytes(Rgb(0, 0, 0));
    }
  }

  /**
   * Stores one pixel as its three bytes right after the filled prefix of a
   * buffer that is still zero beyond it.
   */
  method StorePixel(rgb: array<byte>, offset: nat, c: Rgb, ghost prefix: seq<byte>)
    requires offset == |prefix| && offset + 3 <= rgb.Length
    requires rgb[..] == prefix + Zeros(rgb.Length - offset)
    modifies rgb
    ensures rgb[..] == (prefix + RgbBytes(c)) + Zeros(rgb.Length - offset - 3)
  {
    WritePixel(rgb[..], prefix, c, rgb.Length);
    rgb[offset] := c.r;
    rgb[offset + 1] := c.g;
    rgb[offset + 2] := c.b;
  }

  /** A fresh zero-filled output buffer, as `vec![0u8; n]`. */
  method ZeroedBuffer(n: nat) returns (rgb: array<byte>)
    ensures fresh(rgb) && rgb[..] == Zeros(n)
  {
    rgb := new byte[n](_ => 0);
    forall i | 0 <= i < n ensures rgb[i] == Zeros(n)[i] {
      ZerosAt(n, i);
    }
  }

  // ---------------------------------------------------------------------
  // RGB888 pass-through and BGR888 swap

  /** The first `3*width*height` bytes, unchanged. */
  function PassThroughRgb888(data: seq<byte>, width: nat, height: nat): (r: Result<seq<byte>, ConversionError>)
    requires width * height * 3 < U32_LIMIT
    ensures r.Err? <==> |data| < width * height * 3
    ensures r.Err? ==> r.error == DataTooSmall(|data|, width * height * 3)
    ensures r.Ok? ==> |r.value| == width * height * 3 && r.value == data[..|r.value|]
  {
    var expected := width * height * 3;
    if |data| < expected then Err(DataTooSmall(|data|, expected)) else Ok(data[..expected])
  }

  /** Passing an image through twice is passing it through once. */
  lemma PassThroughIdempotent(data: seq<byte>, width: nat, height: nat)
    requires width * height * 3 < U32_LIMIT
    requires PassThroughRgb888(data, width, height).Ok?
    ensures PassThroughRgb888(PassThroughRgb888(data, width, height).value, width, height)
            == PassThroughRgb888(data, width, height)
  {
    var once := PassThroughRgb888(data, width, height).value;
    assert once[..width * height * 3] == once;
  }

  /** The byte of a BGR triple that lands at position `i` of the RGB triple: 0 and 2 trade places. */
  function Mirror(i: nat): (j: nat)
    ensures j / 3 == i / 3 && j % 3 == 2 - i % 3
  {
    3 * (i / 3) + (2 - i % 3)
  }

  /** Mirroring stays inside a whole number of triples and undoes itself. */
  lemma MirrorInvolution(i: nat, n: nat)
    requires i < n && n % 3 == 0
    ensures Mirror(i) < n && Mirror(Mirror(i)) == i
  {
    var q := i / 3;
    assert 3 * q + 3 <= n;
  }

  lemma MirrorOfTriple(i: nat)
    ensures Mirror(3 * i) == 3 * i + 2 && Mirror(3 * i + 1) == 3 * i + 1 && Mirror(3 * i + 2) == 3 * i
  {
    assert (3 * i) / 3 == i && (3 * i + 1) / 3 == i && (3 * i + 2) / 3 == i;
  }

  /** Every 3-byte group with its first and last byte exchanged. */
  function SwapRedBlue(s: seq<byte>): (out: seq<byte>)
    requires |s| % 3 == 0
    ensures |out| == |s|
  {
    if |s| == 0 then [] else
    var n := |s| - 3;
    SwapRedBlue(s[..n]) + [s[n + 2], s[n + 1], s[n]]
  }

  /** Output byte i is input byte Mirror(i). */
  lemma {:induction false} SwapRedBlueAt(s: seq<byte>, i: nat)
    requires |s| % 3 == 0 && i < |s|
    ensures Mirror(i) < |s| && SwapRedBlue(s)[i] == s[Mirror(i)]
    decreases |s|
  {
    var n := |s| - 3;
    MirrorInvolution(i, |s|);
    if i < n {
      SwapRedBlueAt(s[..n], i);
      MirrorInvolution(i, n);
    } else {
      assert i / 3 == n / 3;
    }
  }

  /** Swapping twice gives back the original bytes. */
  lemma SwapRedBlueInvolution(s: seq<byte>)
    requires |s| % 3 == 0
    ensures SwapRedBlue(SwapRedBlue(s)) == s
  {
    var once := SwapRedBlue(s);
    var twice := SwapRedBlue(once);
    forall i | 0 <= i < |s| ensures twice[i] == s[i] {
      SwapRedBlueAt(once, i);
      SwapRedBlueAt(s, Mirror(i));
      MirrorInvolution(i, |s|);
    }
  }

  /** The pixel-level statement: output pixel i is input pixel i with R and B exchanged. */
  lemma SwapRedBluePixels(s: seq<byte>, i: nat)
    requires |s| % 3 == 0 && 3 * i + 3 <= |s|
    ensures SwapRedBlue(s)[3 * i] == s[3 * i + 2]
    ensures SwapRedBlue(s)[3 * i + 1] == s[3 * i + 1]
    ensures SwapRedBlue(s)[3 * i + 2] == s[3 * i]
  {
    MirrorOfTriple(i);
    SwapRedBlueAt(s, 3 * i);
    SwapRedBlueAt(s, 3 * i + 1);
    SwapRedBlueAt(s, 3 * i + 2);
  }

  method ConvertBgr888ToRgb(data: seq<byte>, width: nat, height: nat) returns (r: Result<seq<byte>, ConversionError>)
    requires width * height * 3 < U32_LIMIT
    ensures r.Err? <==> |data| < width * height * 3
    ensures r.Err? ==> r.error == DataTooSmall(|data|, width * height * 3)
    ensures r.Ok? ==> r.value == SwapRedBlue(data[..width * height * 3])
  {
    var expected := width * height * 3;
    if |data| < expected {
      return Err(DataTooSmall(|data|, expected));
    }
    var rgb: seq<byte> := [];
    var chunk := 0;
    while chunk * 3 < expected
      invariant chunk * 3 <= expected
      invariant rgb == SwapRedBlue(data[..chunk * 3])
    {
      var at := chunk * 3;
      assert data[..at + 3][..at] == data[..at];
      rgb := rgb + [data[at + 2], data[at + 1], data[at]];
      chunk := chunk + 1;
    }
    return Ok(rgb);
  }

  /** Converting the converted image back gives the first `3*width*height` input bytes. */
  lemma BgrRoundTrip(data: seq<byte>, width: nat, height: nat)
    requires |data| >= width * height * 3
    ensures SwapRedBlue(SwapRedBlue(data[..width * height * 3])) == data[..width * height * 3]
  {
    assert (width * height * 3) % 3 == 0;
    SwapRedBlueInvolution(data[..width * height * 3]);
  }

  // ---------------------------------------------------------------------
  // Packed YUV 4:2:2

  /** A macropixel's samples in the order Y0, U, Y1, V, whatever the byte order. */
  datatype Macropixel = Macropixel(y0: byte, u: byte, y1: byte, v: byte)

  /** The macropixel at `offset`: YUYV as stored, UYVY with bytes 0/1 and 2/3 exchanged. */
  function ReadMacropixel(data: seq<byte>, format: YuvPackedFormat, offset: nat): Macropixel
    requires offset + 4 <= |data|
  {
    match format
    case Yuyv => Macropixel(data[offset], data[offset + 1], data[offset + 2], data[offset + 3])
    case Uyvy => Macropixel(data[offset + 1], data[offset], data[offset + 3], data[offset + 2])
  }

  /** A UYVY macropixel reads like the YUYV macropixel with each byte pair exchanged. */
  lemma UyvyIsPairSwappedYuyv(data: seq<byte>, offset: nat)
    requires offset + 4 <= |data|
    ensures var swapped := [data[offset + 1], data[offset], data[offset + 3], data[offset + 2]];
            ReadMacropixel(swapped, Uyvy, 0) == ReadMacropixel(data, Yuyv, offset)
  {
  }

  /** The stride used for a packed frame: the caller's, or the detected one. */
  function ActualStride(frameSize: nat, width: nat, height: nat, strideOverride: Option<nat>): nat
    requires 2 * width * height < U32_LIMIT && 24 * width < U32_LIMIT
    requires strideOverride.None? ==> height > 0 || frameSize == 0
  {
    match strideOverride
    case Some(s) => s
    case None => CalculateYuy2Stride(frameSize, width, height)
  }

  /**
   * Pixel `col` of a packed row whose macropixels start at byte `rowStart`:
   * converted from its macropixel's luma (Y0 for even columns, Y1 for odd)
   * and shared chroma, or black when the macropixel lies past the end of
   * the data (the original stops the row there and leaves its zeros).
   */
  function Pixel422(data: seq<byte>, rowStart: nat, format: YuvPackedFormat, col: nat): Rgb
  {
    var offset := rowStart + (col / 2) * 4;
    if offset + 4 > |data| then Rgb(0, 0, 0)
    else
      var m := ReadMacropixel(data, format, offset);
      YuvToRgb(if col % 2 == 0 then m.y0 else m.y1, m.u, m.v)
  }

  /** The packed frame as an image, row `r` starting at byte `r * stride`. */
  function Image422(data: seq<byte>, width: nat, stride: nat, format: YuvPackedFormat, height: nat): seq<seq<Rgb>>
  {
    seq(height, r requires 0 <= r => seq(width, c requires 0 <= c => Pixel422(data, r * stride, format, c)))
  }

  /** Every pixel of `ps` is the packed pixel of the row at `rowStart`. */
  predicate Row422Matches(ps: seq<Rgb>, data: seq<byte>, rowStart: nat, format: YuvPackedFormat)
  {
    forall c {:trigger Pixel422(data, rowStart, format, c)} :: 0 <= c < |ps| ==> ps[c] == Pixel422(data, rowStart, format, c)
  }

  /** The packed image has the frame's dimensions and each of its rows matches its place in the data. */
  lemma Image422Rows(data: seq<byte>, width: nat, stride: nat, format: YuvPackedFormat, height: nat)
    ensures var img := Image422(data, width, stride, format, height);
            && IsImage(img, width, height)
            && forall r {:trigger img[r]} :: 0 <= r < height ==> Row422Matches(img[r], data, r * stride, format)
  {
  }

  /**
   * Packed 4:2:2 to RGB: an error when the data is shorter than
   * `2*width*height`, otherwise the frame's pixels, row after row, with the
   * given or detected stride.
   */
  method ConvertYuv422ToRgb(data: seq<byte>, width: nat, height: nat, strideOverride: Option<nat>, format: YuvPackedFormat)
    returns (r: Result<seq<byte>, ConversionError>)
    requires 2 * width * height < U32_LIMIT && 24 * width < U32_LIMIT
    requires strideOverride.None? ==> height > 0 || |data| == 0
    ensures r.Err? <==> |data| < 2 * width * height
    ensures r.Err? ==> r.error == DataTooSmall(|data|, 2 * width * height)
    ensures r.Ok? ==>
              var stride := ActualStride(|data|, width, height, strideOverride);
              r.value == ImageBytes(Image422(data, width, stride, format, height), height)
  {
    var frameSize := |data|;
    var expectedStride := 2 * width;
    var minRequired := expectedStride * height;
    if frameSize < minRequired {
      return Err(DataTooSmall(frameSize, minRequired));
    }
    var actualStride := ActualStride(frameSize, width, height, strideOverride);
    var rgbStride := 3 * width;
    var rgb := ZeroedBuffer(height * rgbStride);
    ghost var img := Image422(data, width, actualStride, format, height);
    Image422Rows(data, width, actualStride, format, height);
    ConvertRows422(rgb, data, width, height, actualStride, format, img);
    return Ok(rgb[..]);
  }

  /** Converts every row of a packed frame into a zero-filled buffer of `height` RGB rows. */
  method ConvertRows422(rgb: array<byte>, data: seq<byte>, width: nat, height: nat, stride: nat, format: YuvPackedFormat,
                        ghost img: seq<seq<Rgb>>)
    requires IsImage(img, width, height)
    requires forall r {:trigger img[r]} :: 0 <= r < height ==> Row422Matches(img[r], data, r * stride, format)
    requires rgb[..] == Zeros(height * (3 * width))
    modifies rgb
    ensures rgb[..] == ImageBytes(img, height)
  {
    var row := 0;
    while row < height
      invariant row <= height
      invariant |ImageBytes(img, row)| <= rgb.Length
      invariant rgb[..] == ImageBytes(img, row) + Zeros(rgb.Length - |ImageBytes(img, row)|)
    {
      ConvertFrameRow(rgb, data, width, height, stride, format, row, img);
      row := row + 1;
    }
    ImageBytesLength(img, width, height, height);
  }

  /** Converts row `row` of the frame, the first one not yet converted. */
  method ConvertFrameRow(rgb: array<byte>, data: seq<byte>, width: nat, height: nat, stride: nat, format: YuvPackedFormat,
                         row: nat, ghost img: seq<seq<Rgb>>)
    requires IsImage(img, width, height) && row < height
    requires Row422Matches(img[row], data, row * stride, format)
    requires rgb.Length == height * (3 * width)
    requires |ImageBytes(img, row)| <= rgb.Length
    requires rgb[..] == ImageBytes(img, row) + Zeros(rgb.Length - |ImageBytes(img, row)|)
    modifies rgb
    ensures |ImageBytes(img, row + 1)| <= rgb.Length
    ensures rgb[..] == ImageBytes(img, row + 1) + Zeros(rgb.Length - |ImageBytes(img, row + 1)|)
  {
    var yuvRowStart := row * stride;
    var rgbRowStart := row * (3 * width);
    ImageBytesLength(img, width, height, row);
    MulSucc(row, 3 * width);
    MulMono(row + 1, height, 3 * width);
    ConvertRow422(rgb, data, width, format, yuvRowStart, rgbRowStart, ImageBytes(img, row), img[row]);
  }

  /**
   * One row of the packed conversion, one macropixel at a time, stopping
   * at the first macropixel past the end of the data; the rest of the row
   * keeps the buffer's zeros.
   */
  method ConvertRow422(rgb: array<byte>, data: seq<byte>, width: nat, format: YuvPackedFormat,
                       rowStart: nat, rgbRowStart: nat, ghost done: seq<byte>, ghost ps: seq<Rgb>)
    requires |ps| == width && Row422Matches(ps, data, rowStart, format)
    requires rgbRowStart == |done| && rgbRowStart + 3 * width <= rgb.Length
    requires rgb[..] == done + Zeros(rgb.Length - rgbRowStart)
    modifies rgb
    ensures rgb[..] == done + PixelBytes(ps, width) + Zeros(rgb.Length - rgbRowStart - 3 * width)
  {
    var col := 0;
    ghost var half := 0;
    while col < width
      invariant col == 2 * half && col <= width + 1
      invariant rgb[..] == done + PixelBytes(ps, Min(col, width)) + Zeros(rgb.Length - rgbRowStart - 3 * Min(col, width))
    {
      var pastEnd := ConvertPair422(rgb, data, width, format, rowStart, rgbRowStart, col, half, done, ps);
      if pastEnd {
        break;
      }
      col := col + 2;
      half := half + 1;
    }
  }

  /**
   * The macropixel at even column `col`: when it lies past the end of the
   * data the row stops there and keeps its zeros, otherwise its pixels are
   * converted.
   */
  method ConvertPair422(rgb: array<byte>, data: seq<byte>, width: nat, format: YuvPackedFormat,
                        rowStart: nat, rgbRowStart: nat, col: nat, ghost half: nat, ghost done: seq<byte>, ghost ps: seq<Rgb>)
    returns (pastEnd: bool)
    requires col == 2 * half && col < width
    requires |ps| == width && Row422Matches(ps, data, rowStart, format)
    requires rgbRowStart == |done| && rgbRowStart + 3 * width <= rgb.Length
    requires rgb[..] == done + PixelBytes(ps, col) + Zeros(rgb.Length - rgbRowStart - 3 * col)
    modifies rgb
    ensures pastEnd <==> rowStart + col * 2 + 4 > |data|
    ensures pastEnd ==> rgb[..] == done + PixelBytes(ps, width) + Zeros(rgb.Length - rgbRowStart - 3 * width)
    ensures !pastEnd ==>
              var filled := Min(col + 2, width);
              rgb[..] == done + PixelBytes(ps, filled) + Zeros(rgb.Length - rgbRowStart - 3 * filled)
  {
    var yuvOffset := rowStart + col * 2;
    pastEnd := yuvOffset + 4 > |data|;
    if pastEnd {
      PastEnd422Black(ps, data, rowStart, format, col, half);
      RowStopsEarly(rgb[..], done, ps, col, width, rgb.Length);
    } else {
      ConvertMacropixel(rgb, data, width, format, rowStart, rgbRowStart, col, half, done, ps);
    }
  }

  /**
   * The pixels of the macropixel at even column `col`, which lies within
   * the data; the second is written only when the row has that column.
   */
  method ConvertMacropixel(rgb: array<byte>, data: seq<byte>, width: nat, format: YuvPackedFormat,
                           rowStart: nat, rgbRowStart: nat, col: nat, ghost half: nat, ghost done: seq<byte>, ghost ps: seq<Rgb>)
    requires col == 2 * half && col < width && rowStart + col * 2 + 4 <= |data|
    requires |ps| == width && Row422Matches(ps, data, rowStart, format)
    requires rgbRowStart == |done| && rgbRowStart + 3 * width <= rgb.Length
    requires rgb[..] == done + PixelBytes(ps, col) + Zeros(rgb.Length - rgbRowStart - 3 * col)
    modifies rgb
    ensures col + 1 < width ==> rgb[..] == done + PixelBytes(ps, col + 2) + Zeros(rgb.Length - rgbRowStart - 3 * (col + 2))
    ensures col + 1 == width ==> rgb[..] == done + PixelBytes(ps, col + 1) + Zeros(rgb.Length - rgbRowStart - 3 * (col + 1))
  {
    var first, second := MacropixelColours(data, width, format, rowStart, col, half, ps);
    var rgbOffset := rgbRowStart + col * 3;
    StorePixel(rgb, rgbOffset, first, done + PixelBytes(ps, col));
    PixelStep(done, ps, col);
    if col + 1 < width {
      StorePixel(rgb, rgbOffset + 3, second, done + PixelBytes(ps, col + 1));
      PixelStep(done, ps, col + 1);
    }
  }

  /**
   * Reads the macropixel at even column `col` in the given byte order and
   * converts its two pixels, Y0 and Y1 each with the shared U and V.
   */
  method MacropixelColours(data: seq<byte>, width: nat, format: YuvPackedFormat, rowStart: nat, col: nat,
                           ghost half: nat, ghost ps: seq<Rgb>)
    returns (first: Rgb, second: Rgb)
    requires col == 2 * half && col < width && rowStart + col * 2 + 4 <= |data|
    requires |ps| == width && Row422Matches(ps, data, rowStart, format)
    ensures first == ps[col] && (col + 1 < width ==> second == ps[col + 1])
  {
    var yuvOffset := rowStart + col * 2;
    var m := ReadMacropixel(data, format, yuvOffset);
    first := YuvToRgb(m.y0, m.u, m.v);
    second := YuvToRgb(m.y1, m.u, m.v);
    MacropixelPixels(ps, data, rowStart, format, col, half, yuvOffset);
  }

  /** The two pixels of the macropixel at an even column come from its two lumas. */
  lemma MacropixelPixels(ps: seq<Rgb>, data: seq<byte>, rowStart: nat, format: YuvPackedFormat, col: nat, half: nat, offset: nat)
    requires col == 2 * half && col < |ps| && offset == rowStart + col * 2 && offset + 4 <= |data|
    requires Row422Matches(ps, data, rowStart, format)
    ensures var m := ReadMacropixel(data, format, offset);
            && ps[col] == YuvToRgb(m.y0, m.u, m.v)
            && (col + 1 < |ps| ==> ps[col + 1] == YuvToRgb(m.y1, m.u, m.v))
  {
    assert (col / 2) * 4 == col * 2;
    assert ps[col] == Pixel422(data, rowStart, format, col);
    if col + 1 < |ps| {
      assert ((col + 1) / 2) * 4 == col * 2;
      assert ps[col + 1] == Pixel422(data, rowStart, format, col + 1);
    }
  }

  /** From a macropixel past the end of the data on, every pixel of the row is black. */
  lemma PastEnd422Black(ps: seq<Rgb>, data: seq<byte>, rowStart: nat, format: YuvPackedFormat, col: nat, half: nat)
    requires col == 2 * half && rowStart + col * 2 + 4 > |data|
    requires Row422Matches(ps, data, rowStart, format)
    ensures forall c :: col <= c < |ps| ==> ps[c] == Rgb(0, 0, 0)
  {
    forall c | col <= c < |ps| ensures ps[c] == Rgb(0, 0, 0) {
      assert (c / 2) * 4 >= col * 2;
      assert ps[c] == Pixel422(data, rowStart, format, c);
    }
  }

  /** Pixel (r, c) of a converted packed frame is stored at `r * 3 * width + 3 * c`. */
  lemma Yuv422PixelAt(data: seq<byte>, width: nat, stride: nat, format: YuvPackedFormat, height: nat, r: nat, c: nat)
    requires r < height && c < width
    ensures var bytes, k := ImageBytes(Image422(data, width, stride, format, height), height), r * (3 * width) + 3 * c;
            k + 3 <= |bytes| && bytes[k..k + 3] == RgbBytes(Pixel422(data, r * stride, format, c))
  {
    Image422Rows(data, width, stride, format, height);
    ImageBytesAt(Image422(data, width, stride, format, height), width, height, height, r, c);
  }

  /** The legacy YUY2 entry point is the YUYV case of the packed conversion. */
  method ConvertYuy2ToRgb(data: seq<byte>, width: nat, height: nat, strideOverride: Option<nat>)
    returns (r: Result<seq<byte>, ConversionError>)
    requires 2 * width * height < U32_LIMIT && 24 * width < U32_LIMIT
    requires strideOverride.None? ==> height > 0 || |data| == 0
    ensures r.Err? <==> |data| < 2 * width * height
    ensures r.Ok? ==>
              var stride := ActualStride(|data|, width, height, strideOverride);
              r.value == ImageBytes(Image422(data, width, stride, Yuyv, height), height)
  {
    r := ConvertYuv422ToRgb(data, width, height, strideOverride, Yuyv);
  }

  // ---------------------------------------------------------------------
  // Planar I420: a full luma plane, then quarter-size U and V planes

  /** Bytes an I420 frame needs: the luma plane and two chroma planes of a quarter of it each, rounded down. */
  function I420Size(width: nat, height: nat): nat
  {
    var ySize := width * height;
    ySize + (ySize / 4) * 2
  }

  /**
   * Whether the largest chroma index the conversion computes, that of the
   * last pixel, lies inside the U plane; the original indexes past the
   * plane and panics when it does not, as with some odd dimensions.
   */
  predicate I420ChromaInBounds(width: nat, height: nat)
  {
    width == 0 || height == 0 || ((height - 1) / 2) * (width / 2) + (width - 1) / 2 < (width * height) / 4
  }

  /** Every pixel's luma index lies in the luma plane and its chroma index in each chroma plane. */
  lemma I420IndexBounds(width: nat, height: nat, row: nat, col: nat)
    requires row < height && col < width && I420ChromaInBounds(width, height)
    ensures row * width + col < width * height
    ensures 0 <= (row / 2) * (width / 2) && (row / 2) * (width / 2) + col / 2 < (width * height) / 4
  {
    MulSucc(row, width);
    MulMono(row + 1, height, width);
    MulMono(row / 2, (height - 1) / 2, width / 2);
  }

  /** Pixel (row, col) of an I420 frame: its own luma and the chroma of its 2x2 block. */
  function PixelI420(data: seq<byte>, width: nat, height: nat, row: nat, col: nat): Rgb
    requires |data| >= I420Size(width, height) && I420ChromaInBounds(width, height)
    requires row < height && col < width
  {
    I420IndexBounds(width, height, row, col);
    var ySize := width * height;
    var uvSize := ySize / 4;
    var uvIdx := (row / 2) * (width / 2) + col / 2;
    YuvToRgb(data[row * width + col], data[ySize + uvIdx], data[ySize + uvSize + uvIdx])
  }

  /** The I420 frame as an image. */
  function ImageI420(data: seq<byte>, width: nat, height: nat): seq<seq<Rgb>>
    requires |data| >= I420Size(width, height) && I420ChromaInBounds(width, height)
  {
    seq(height, r requires 0 <= r < height => seq(width, c requires 0 <= c < width => PixelI420(data, width, height, r, c)))
  }

  /** The data holds a whole I420 frame whose chroma indices all lie inside the planes. */
  predicate I420Ready(data: seq<byte>, width: nat, height: nat)
  {
    |data| >= I420Size(width, height) && I420ChromaInBounds(width, height)
  }

  /** `ps` is row `row` of the I420 frame. */
  predicate RowI420Matches(ps: seq<Rgb>, data: seq<byte>, width: nat, height: nat, row: nat)
  {
    && I420Ready(data, width, height) && row < height && |ps| == width
    && forall c {:trigger PixelI420(data, width, height, row, c)} :: 0 <= c < width ==> ps[c] == PixelI420(data, width, height, row, c)
  }

  lemma ImageI420Rows(data: seq<byte>, width: nat, height: nat)
    requires |data| >= I420Size(width, height) && I420ChromaInBounds(width, height)
    ensures var img := ImageI420(data, width, height);
            && IsImage(img, width, height)
            && forall r {:trigger img[r]} :: 0 <= r < height ==> RowI420Matches(img[r], data, width, height, r)
  {
  }

  /**
   * I420 to RGB: an error when the data is shorter than the three planes,
   * otherwise every pixel converted from its luma and its block's chroma.
   */
  method ConvertI420ToRgb(data: seq<byte>, width: nat, height: nat) returns (r: Result<seq<byte>, ConversionError>)
    requires width * height < U32_LIMIT && 3 * width < U32_LIMIT
    requires |data| >= I420Size(width, height) ==> I420ChromaInBounds(width, height)
    ensures r.Err? <==> |data| < I420Size(width, height)
    ensures r.Err? ==> r.error == DataTooSmall(|data|, I420Size(width, height))
    ensures r.Ok? ==> r.value == ImageBytes(ImageI420(data, width, height), height)
  {
    var ySize := width * height;
    var uvSize := ySize / 4;
    var expectedSize := ySize + uvSize * 2;
    if |data| < expectedSize {
      return Err(DataTooSmall(|data|, expectedSize));
    }
    var rgbStride := 3 * width;
    var rgb := ZeroedBuffer(height * rgbStride);
    ghost var img := ImageI420(data, width, height);
    ImageI420Rows(data, width, height);
    ConvertRowsI420(rgb, data, width, height, img);
    return Ok(rgb[..]);
  }

  method ConvertRowsI420(rgb: array<byte>, data: seq<byte>, width: nat, height: nat, ghost img: seq<seq<Rgb>>)
    requires IsImage(img, width, height)
    requires forall r {:trigger img[r]} :: 0 <= r < height ==> RowI420Matches(img[r], data, width, height, r)
    requires rgb[..] == Zeros(height * (3 * width))
    modifies rgb
    ensures rgb[..] == ImageBytes(img, height)
  {
    var row := 0;
    while row < height
      invariant row <= height
      invariant |ImageBytes(img, row)| <= rgb.Length
      invariant rgb[..] == ImageBytes(img, row) + Zeros(rgb.Length - |ImageBytes(img, row)|)
    {
      ConvertFrameRowI420(rgb, data, width, height, row, img);
      row := row + 1;
    }
    ImageBytesLength(img, width, height, height);
  }

  method ConvertFrameRowI420(rgb: array<byte>, data: seq<byte>, width: nat, height: nat, row: nat, ghost img: seq<seq<Rgb>>)
    requires IsImage(img, width, height) && row < height
    requires RowI420Matches(img[row], data, width, height, row)
    requires rgb.Length == height * (3 * width)
    requires |ImageBytes(img, row)| <= rgb.Length
    requires rgb[..] == ImageBytes(img, row) + Zeros(rgb.Length - |ImageBytes(img, row)|)
    modifies rgb
    ensures |ImageBytes(img, row + 1)| <= rgb.Length
    ensures rgb[..] == ImageBytes(img, row + 1) + Zeros(rgb.Length - |ImageBytes(img, row + 1)|)
  {
    MulNat(row, width);
    MulNat(row / 2, width / 2);
    var yRowStart := row * width;
    var uvRowStart := (row / 2) * (width / 2);
    var rgbRowStart := row * (3 * width);
    ImageBytesLength(img, width, height, row);
    MulSucc(row, 3 * width);
    MulMono(row + 1, height, 3 * width);
    ConvertRowI420(rgb, data, width, height, row, yRowStart, uvRowStart, rgbRowStart, ImageBytes(img, row), img[row]);
  }

  /** One row of the I420 conversion, pixel by pixel. */
  method ConvertRowI420(rgb: array<byte>, data: seq<byte>, width: nat, height: nat, row: nat,
                        yRowStart: nat, uvRowStart: nat, rgbRowStart: nat, ghost done: seq<byte>, ghost ps: seq<Rgb>)
    requires |data| >= I420Size(width, height) && I420ChromaInBounds(width, height) && row < height
    requires yRowStart == row * width && uvRowStart == (row / 2) * (width / 2)
    requires RowI420Matches(ps, data, width, height, row)
    requires rgbRowStart == |done| && rgbRowStart + 3 * width <= rgb.Length
    requires rgb[..] == done + Zeros(rgb.Length - rgbRowStart)
    modifies rgb
    ensures rgb[..] == done + PixelBytes(ps, width) + Zeros(rgb.Length - rgbRowStart - 3 * width)
  {
    var col := 0;
    while col < width
      invariant col <= width
      invariant rgb[..] == done + PixelBytes(ps, col) + Zeros(rgb.Length - rgbRowStart - 3 * col)
    {
      var c := PixelI420At(data, width, height, row, col, yRowStart, uvRowStart, ps);
      StorePixel(rgb, rgbRowStart + col * 3, c, done + PixelBytes(ps, col));
      PixelStep(done, ps, col);
      col := col + 1;
    }
  }

  /** Reads pixel `col` of row `row` from the three planes and converts it. */
  method PixelI420At(data: seq<byte>, width: nat, height: nat, row: nat, col: nat,
                     yRowStart: nat, uvRowStart: nat, ghost ps: seq<Rgb>)
    returns (c: Rgb)
    requires |data| >= I420Size(width, height) && I420ChromaInBounds(width, height) && row < height && col < width
    requires yRowStart == row * width && uvRowStart == (row / 2) * (width / 2)
    requires RowI420Matches(ps, data, width, height, row)
    ensures c == ps[col]
  {
    I420IndexBounds(width, height, row, col);
    var ySize := width * height;
    var uvSize := ySize / 4;
    var uvIdx := uvRowStart + col / 2;
    c := YuvToRgb(data[yRowStart + col], data[ySize + uvIdx], data[ySize + uvSize + uvIdx]);
    assert c == PixelI420(data, width, height, row, col);
  }

  /** With even dimensions every chroma index lies inside its plane. */
  lemma EvenDimensionsI420InBounds(width: nat, height: nat)
    requires width % 2 == 0 && height % 2 == 0
    ensures I420ChromaInBounds(width, height)
  {
    if width > 0 && height > 0 {
      var a, b := width / 2, height / 2;
      assert width * height == 4 * (a * b);
      assert (width * height) / 4 == a * b;
      assert ((height - 1) / 2) * a == (b - 1) * a == a * b - a;
    }
  }

  /** A 3x2 frame is one where the last pixel's chroma index falls past the U plane. */
  lemma OddWidthI420OutOfBounds()
    ensures I420Size(3, 2) == 8 && !I420ChromaInBounds(3, 2)
  {
  }

  /** The four pixels of a 2x2 block share their chroma: equal luma gives equal colour. */
  lemma I420BlockSharesChroma(data: seq<byte>, width: nat, height: nat, r1: nat, c1: nat, r2: nat, c2: nat)
    requires |data| >= I420Size(width, height) && I420ChromaInBounds(width, height)
    requires r1 < height && r2 < height && c1 < width && c2 < width
    requires r1 * width + c1 < |data| && r2 * width + c2 < |data|
    requires r1 / 2 == r2 / 2 && c1 / 2 == c2 / 2 && data[r1 * width + c1] == data[r2 * width + c2]
    ensures PixelI420(data, width, height, r1, c1) == PixelI420(data, width, height, r2, c2)
  {
    I420IndexBounds(width, height, r1, c1);
    I420IndexBounds(width, height, r2, c2);
  }

  // ---------------------------------------------------------------------
  // Semi-planar NV12: a full luma plane, then interleaved U/V pairs

  /** Bytes an NV12 frame needs: the luma plane and half of it again for the interleaved chroma. */
  function Nv12Size(width: nat, height: nat): nat
  {
    var ySize := width * height;
    ySize + ySize / 2
  }

  /**
   * Whether the V byte of the last pixel's chroma pair lies inside the data;
   * the original indexes past the end and panics when it does not.
   */
  predicate Nv12ChromaInBounds(length: nat, width: nat, height: nat)
  {
    width == 0 || height == 0 || width * height + ((height - 1) / 2) * width + ((width - 1) / 2) * 2 + 1 < length
  }

  lemma Nv12IndexBounds(length: nat, width: nat, height: nat, row: nat, col: nat)
    requires row < height && col < width && Nv12ChromaInBounds(length, width, height)
    ensures row * width + col < width * height
    ensures 0 <= (row / 2) * width && width * height + (row / 2) * width + (col / 2) * 2 + 1 < length
  {
    MulSucc(row, width);
    MulMono(row + 1, height, width);
    MulMono(row / 2, (height - 1) / 2, width);
  }

  /** Pixel (row, col) of an NV12 frame: its own luma and the U/V pair of its 2x2 block. */
  function PixelNv12(data: seq<byte>, width: nat, height: nat, row: nat, col: nat): Rgb
    requires |data| >= Nv12Size(width, height) && Nv12ChromaInBounds(|data|, width, height)
    requires row < height && col < width
  {
    Nv12IndexBounds(|data|, width, height, row, col);
    var ySize := width * height;
    var uvIdx := (row / 2) * width + (col / 2) * 2;
    YuvToRgb(data[row * width + col], data[ySize + uvIdx], data[ySize + uvIdx + 1])
  }

  /** The NV12 frame as an image. */
  function ImageNv12(data: seq<byte>, width: nat, height: nat): seq<seq<Rgb>>
    requires |data| >= Nv12Size(width, height) && Nv12ChromaInBounds(|data|, width, height)
  {
    seq(height, r requires 0 <= r < height => seq(width, c requires 0 <= c < width => PixelNv12(data, width, height, r, c)))
  }

  /** The data holds a whole NV12 frame whose chroma pairs all lie inside it. */
  predicate Nv12Ready(data: seq<byte>, width: nat, height: nat)
  {
    |data| >= Nv12Size(width, height) && Nv12ChromaInBounds(|data|, width, height)
  }

  /** `ps` is row `row` of the NV12 frame. */
  predicate RowNv12Matches(ps: seq<Rgb>, data: seq<byte>, width: nat, height: nat, row: nat)
  {
    && Nv12Ready(data, width, height) && row < height && |ps| == width
    && forall c {:trigger PixelNv12(data, width, height, row, c)} :: 0 <= c < width ==> ps[c] == PixelNv12(data, width, height, row, c)
  }

  lemma ImageNv12Rows(data: seq<byte>, width: nat, height: nat)
    requires |data| >= Nv12Size(width, height) && Nv12ChromaInBounds(|data|, width, height)
    ensures var img := ImageNv12(data, width, height);
            && IsImage(img, width, height)
            && forall r {:trigger img[r]} :: 0 <= r < height ==> RowNv12Matches(img[r], data, width, height, r)
  {
  }

  /**
   * NV12 to RGB: an error when the data is shorter than the two planes,
   * otherwise every pixel converted from its luma and its block's U/V pair.
   */
  method ConvertNv12ToRgb(data: seq<byte>, width: nat, height: nat) returns (r: Result<seq<byte>, ConversionError>)
    requires width * height < U32_LIMIT && 3 * width < U32_LIMIT
    requires |data| >= Nv12Size(width, height) ==> Nv12ChromaInBounds(|data|, width, height)
    ensures r.Err? <==> |data| < Nv12Size(width, height)
    ensures r.Err? ==> r.error == DataTooSmall(|data|, Nv12Size(width, height))
    ensures r.Ok? ==> r.value == ImageBytes(ImageNv12(data, width, height), height)
  {
    var ySize := width * height;
    var uvSize := ySize / 2;
    var expectedSize := ySize + uvSize;
    if |data| < expectedSize {
      return Err(DataTooSmall(|data|, expectedSize));
    }
    var rgbStride := 3 * width;
    var rgb := ZeroedBuffer(height * rgbStride);
    ghost var img := ImageNv12(data, width, height);
    ImageNv12Rows(data, width, height);
    ConvertRowsNv12(rgb, data, width, height, img);
    return Ok(rgb[..]);
  }

  method ConvertRowsNv12(rgb: array<byte>, data: seq<byte>, width: nat, height: nat, ghost img: seq<seq<Rgb>>)
    requires IsImage(img, width, height)
    requires forall r {:trigger img[r]} :: 0 <= r < height ==> RowNv12Matches(img[r], data, width, height, r)
    requires rgb[..] == Zeros(height * (3 * width))
    modifies rgb
    ensures rgb[..] == ImageBytes(img, height)
  {
    var row := 0;
    while row < height
      invariant row <= height
      invariant |ImageBytes(img, row)| <= rgb.Length
      invariant rgb[..] == ImageBytes(img, row) + Zeros(rgb.Length - |ImageBytes(img, row)|)
    {
      ConvertFrameRowNv12(rgb, data, width, height, row, img);
      row := row + 1;
    }
    ImageBytesLength(img, width, height, height);
  }

  method ConvertFrameRowNv12(rgb: array<byte>, data: seq<byte>, width: nat, height: nat, row: nat, ghost img: seq<seq<Rgb>>)
    requires IsImage(img, width, height) && row < height
    requires RowNv12Matches(img[row], data, width, height, row)
    requires rgb.Length == height * (3 * width)
    requires |ImageBytes(img, row)| <= rgb.Length
    requires rgb[..] == ImageBytes(img, row) + Zeros(rgb.Length - |ImageBytes(img, row)|)
    modifies rgb
    ensures |ImageBytes(img, row + 1)| <= rgb.Length
    ensures rgb[..] == ImageBytes(img, row + 1) + Zeros(rgb.Length - |ImageBytes(img, row + 1)|)
  {
    MulNat(row, width);
    MulNat(row / 2, width);
    var yRowStart := row * width;
    var uvRowStart := (row / 2) * width;
    var rgbRowStart := row * (3 * width);
    ImageBytesLength(img, width, height, row);
    MulSucc(row, 3 * width);
    MulMono(row + 1, height, 3 * width);
    ConvertRowNv12(rgb, data, width, height, row, yRowStart, uvRowStart, rgbRowStart, ImageBytes(img, row), img[row]);
  }

  /** One row of the NV12 conversion, pixel by pixel. */
  method ConvertRowNv12(rgb: array<byte>, data: seq<byte>, width: nat, height: nat, row: nat,
                        yRowStart: nat, uvRowStart: nat, rgbRowStart: nat, ghost done: seq<byte>, ghost ps: seq<Rgb>)
    requires |data| >= Nv12Size(width, height) && Nv12ChromaInBounds(|data|, width, height) && row < height
    requires yRowStart == row * width && uvRowStart == (row / 2) * width
    requires RowNv12Matches(ps, data, width, height, row)
    requires rgbRowStart == |done| && rgbRowStart + 3 * width <= rgb.Length
    requires rgb[..] == done + Zeros(rgb.Length - rgbRowStart)
    modifies rgb
    ensures rgb[..] == done + PixelBytes(ps, width) + Zeros(rgb.Length - rgbRowStart - 3 * width)
  {
    var col := 0;
    while col < width
      invariant col <= width
      invariant rgb[..] == done + PixelBytes(ps, col) + Zeros(rgb.Length - rgbRowStart - 3 * col)
    {
      var c := PixelNv12At(data, width, height, row, col, yRowStart, uvRowStart, ps);
      StorePixel(rgb, rgbRowStart + col * 3, c, done + PixelBytes(ps, col));
      PixelStep(done, ps, col);
      col := col + 1;
    }
  }

  /** Reads pixel `col` of row `row` from the luma plane and the interleaved chroma plane and converts it. */
  method PixelNv12At(data: seq<byte>, width: nat, height: nat, row: nat, col: nat,
                     yRowStart: nat, uvRowStart: nat, ghost ps: seq<Rgb>)
    returns (c: Rgb)
    requires |data| >= Nv12Size(width, height) && Nv12ChromaInBounds(|data|, width, height) && row < height && col < width
    requires yRowStart == row * width && uvRowStart == (row / 2) * width
    requires RowNv12Matches(ps, data, width, height, row)
    ensures c == ps[col]
  {
    Nv12IndexBounds(|data|, width, height, row, col);
    var ySize := width * height;
    var uvIdx := uvRowStart + (col / 2) * 2;
    c := YuvToRgb(data[yRowStart + col], data[ySize + uvIdx], data[ySize + uvIdx + 1]);
    assert c == PixelNv12(data, width, height, row, col);
  }

  /** With even dimensions and the full two planes, every chroma pair lies inside the data. */
  lemma EvenDimensionsNv12InBounds(length: nat, width: nat, height: nat)
    requires width % 2 == 0 && height % 2 == 0 && length >= Nv12Size(width, height)
    ensures Nv12ChromaInBounds(length, width, height)
  {
    if width > 0 && height > 0 {
      var b := height / 2;
      assert width * height == 2 * (b * width);
      assert (width * height) / 2 == b * width;
      assert ((height - 1) / 2) * width == (b - 1) * width == b * width - width;
      assert ((width - 1) / 2) * 2 == width - 2;
    }
  }

  /** A 3x1 frame of exactly the required four bytes is one where the V byte falls past the end. */
  lemma OddWidthNv12OutOfBounds()
    ensures Nv12Size(3, 1) == 4 && !Nv12ChromaInBounds(4, 3, 1)
  {
  }

  /** The four pixels of a 2x2 block share their U/V pair: equal luma gives equal colour. */
  lemma Nv12BlockSharesChroma(data: seq<byte>, width: nat, height: nat, r1: nat, c1: nat, r2: nat, c2: nat)
    requires |data| >= Nv12Size(width, height) && Nv12ChromaInBounds(|data|, width, height)
    requires r1 < height && r2 < height && c1 < width && c2 < width
    requires r1 * width + c1 < |data| && r2 * width + c2 < |data|
    requires r1 / 2 == r2 / 2 && c1 / 2 == c2 / 2 && data[r1 * width + c1] == data[r2 * width + c2]
    ensures PixelNv12(data, width, height, r1, c1) == PixelNv12(data, width, height, r2, c2)
  {
    Nv12IndexBounds(|data|, width, height, r1, c1);
    Nv12IndexBounds(|data|, width, height, r2, c2);
  }
}
