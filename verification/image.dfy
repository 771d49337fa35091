/**
 * Embedded images (`image.rs`): how an image is placed relative to the
 * text, format detection from the leading bytes, the dimension decoders
 * for PNG, GIF and BMP headers, and the size-bounded image cache.
 *
 * Dimensions are whole pixels (`nat`); the Rust code converts them to `f32`.
 * The JPEG, WebP, SVG and TIFF decoders are not part of this model: where
 * the Rust code calls one, its result is an input of the model.
 */
module Image {
  import opened Wrappers
  import opened TextUtil
  import OoxmlTypes

  // ---------------------------------------------------------------------
  // Text wrapping
  // ---------------------------------------------------------------------

  datatype WrapType = Square | Tight | Through | TopBottom | Behind | InFront

  predicate IsBehindText(w: WrapType) { w.Behind? }

  predicate IsInFrontOfText(w: WrapType) { w.InFront? }

  predicate RequiresWrapPolygon(w: WrapType) { w.Tight? || w.Through? }

  /** The three wrap predicates partition the wrap types into four layers:
      behind, in front, contour-following, and the box-shaped rest. */
  lemma WrapTypeLayers(w: WrapType)
    ensures !(IsBehindText(w) && IsInFrontOfText(w))
    ensures RequiresWrapPolygon(w) ==> !IsBehindText(w) && !IsInFrontOfText(w)
    ensures !IsBehindText(w) && !IsInFrontOfText(w) && !RequiresWrapPolygon(w) <==> w.Square? || w.TopBottom?
  {
  }

  /** An image placed on a page, as the renderer receives it: identifier,
      position and drawn size, wrapping, stacking order, visibility, alt
      text and opacity. */
  datatype RenderedImage = RenderedImage(
    imageId: string, x: real, y: real, width: real, height: real,
    wrapType: Option<WrapType>, zOrder: int, visible: bool, altText: Option<string>, opacity: real)

  // ---------------------------------------------------------------------
  // Formats and magic bytes
  // ---------------------------------------------------------------------

  datatype ImageFormat = Png | Jpeg | Gif | Bmp | WebP | Svg | Tiff | Unknown

  const PngSignature: seq<Byte> := [0x89, 0x50, 0x4E, 0x47, 0x0D, 0x0A, 0x1A, 0x0A]
  const JpegSignature: seq<Byte> := [0xFF, 0xD8, 0xFF]
  /** "GIF87a" and "GIF89a". */
  const Gif87a: seq<Byte> := [0x47, 0x49, 0x46, 0x38, 0x37, 0x61]
  const Gif89a: seq<Byte> := [0x47, 0x49, 0x46, 0x38, 0x39, 0x61]
  /** "BM". */
  const BmpSignature: seq<Byte> := [0x42, 0x4D]
  /** "RIFF" and "WEBP". */
  const RiffTag: seq<Byte> := [0x52, 0x49, 0x46, 0x46]
  const WebpTag: seq<Byte> := [0x57, 0x45, 0x42, 0x50]
  /** "<?xml" and "<svg". */
  const XmlDeclaration: seq<Byte> := [0x3C, 0x3F, 0x78, 0x6D, 0x6C]
  const SvgOpen: seq<Byte> := [0x3C, 0x73, 0x76, 0x67]

  /** Below this length every input is Unknown. */
  const MinSniffLength := 12

  predicate HasPrefix(data: seq<Byte>, p: seq<Byte>)
  {
    |p| <= |data| && data[..|p|] == p
  }

  /** The leading bytes that identify each format; TIFF and Unknown have
      none. */
  predicate Signature(data: seq<Byte>, f: ImageFormat)
  {
    match f
    case Png => HasPrefix(data, PngSignature)
    case Jpeg => HasPrefix(data, JpegSignature)
    case Gif => HasPrefix(data, Gif87a) || HasPrefix(data, Gif89a)
    case Bmp => HasPrefix(data, BmpSignature)
    case WebP => |data| >= 12 && data[0..4] == RiffTag && data[8..12] == WebpTag
    case Svg => HasPrefix(data, XmlDeclaration) || (HasPrefix(data, SvgOpen) && |data| > 4)
    case Tiff => false
    case Unknown => false
  }

  /** `ImageFormat::from_magic_bytes`: Unknown below twelve bytes, otherwise
      the first signature that matches, in the order PNG, JPEG, GIF, BMP,
      WebP, SVG. */
  function FromMagicBytes(data: seq<Byte>): (r: ImageFormat)
    ensures |data| < MinSniffLength ==> r == ImageFormat.Unknown
    ensures r != ImageFormat.Unknown ==> Signature(data, r)
    ensures r != Tiff
  {
    if |data| < MinSniffLength then ImageFormat.Unknown
    else if HasPrefix(data, PngSignature) then Png
    else if HasPrefix(data, JpegSignature) then Jpeg
    else if HasPrefix(data, Gif87a) || HasPrefix(data, Gif89a) then Gif
    else if HasPrefix(data, BmpSignature) then Bmp
    else if |data| >= 12 && data[0..4] == RiffTag && data[8..12] == WebpTag then WebP
    else if HasPrefix(data, XmlDeclaration) || (HasPrefix(data, SvgOpen) && |data| > 4) then Svg
    else ImageFormat.Unknown
  }

  /** The first byte each signature demands. */
  function LeadByte(f: ImageFormat): Byte
  {
    match f
    case Png => 0x89
    case Jpeg => 0xFF
    case Gif => 0x47
    case Bmp => 0x42
    case WebP => 0x52
    case Svg => 0x3C
    case _ => 0
  }

  lemma SignatureLeadByte(data: seq<Byte>, f: ImageFormat)
    requires Signature(data, f)
    ensures |data| > 0 && data[0] == LeadByte(f)
  {
    match f
    case Png => assert data[0] == data[..|PngSignature|][0];
    case Jpeg => assert data[0] == data[..|JpegSignature|][0];
    case Gif =>
      if HasPrefix(data, Gif87a) {
        assert data[0] == data[..|Gif87a|][0];
      } else {
        assert data[0] == data[..|Gif89a|][0];
      }
    case Bmp => assert data[0] == data[..|BmpSignature|][0];
    case WebP => assert data[0] == data[0..4][0];
    case Svg =>
      if HasPrefix(data, XmlDeclaration) {
        assert data[0] == data[..|XmlDeclaration|][0];
      } else {
        assert data[0] == data[..|SvgOpen|][0];
      }
  }

  /** No input carries two signatures: they all begin with different bytes. */
  lemma SignaturesExclusive(data: seq<Byte>, f: ImageFormat, g: ImageFormat)
    requires Signature(data, f) && Signature(data, g)
    ensures f == g
  {
    SignatureLeadByte(data, f);
    SignatureLeadByte(data, g);
  }

  /** Since the signatures exclude each other, the detection order never
      matters: an input of twelve or more bytes is detected as a format
      exactly when it carries that format's signature. */
  lemma FromMagicBytesIff(data: seq<Byte>, f: ImageFormat)
    requires f != ImageFormat.Unknown
    ensures FromMagicBytes(data) == f <==> |data| >= MinSniffLength && Signature(data, f)
  {
    var r := FromMagicBytes(data);
    if |data| >= MinSniffLength && Signature(data, f) && r != ImageFormat.Unknown {
      SignaturesExclusive(data, r, f);
    }
  }

  /** Short inputs are Unknown even with a valid signature: an eight-byte
      PNG signature alone is not detected. */
  lemma ShortInputIsUnknown()
    ensures FromMagicBytes(PngSignature) == ImageFormat.Unknown
  {
  }

  lemma FromMagicBytesExamples()
    ensures FromMagicBytes(PngSignature + [0, 0, 0, 0x0D]) == Png
    ensures FromMagicBytes(Gif89a + [0x40, 0x01, 0xF0, 0x00, 0x00, 0x00]) == Gif
  {
    assert (PngSignature + [0, 0, 0, 0x0D])[..8] == PngSignature;
    FromMagicBytesIff(PngSignature + [0, 0, 0, 0x0D], Png);
    assert (Gif89a + [0x40, 0x01, 0xF0, 0x00, 0x00, 0x00])[..6] == Gif89a;
    FromMagicBytesIff(Gif89a + [0x40, 0x01, 0xF0, 0x00, 0x00, 0x00], Gif);
  }

  /** A RIFF container is WebP only with the "WEBP" tag at byte 8. */
  lemma WebpExample()
    ensures FromMagicBytes(RiffTag + [0, 0, 0, 0] + WebpTag) == WebP
  {
    assert (RiffTag + [0, 0, 0, 0] + WebpTag)[0..4] == RiffTag;
    assert (RiffTag + [0, 0, 0, 0] + WebpTag)[8..12] == WebpTag;
    FromMagicBytesIff(RiffTag + [0, 0, 0, 0] + WebpTag, WebP);
  }

  lemma ZerosAreUnknown()
    ensures FromMagicBytes([0, 0, 0, 0, 0, 0, 0, 0, 0, 0, 0, 0]) == ImageFormat.Unknown
  {
    var data: seq<Byte> := [0, 0, 0, 0, 0, 0, 0, 0, 0, 0, 0, 0];
    if FromMagicBytes(data) != ImageFormat.Unknown {
      SignatureLeadByte(data, FromMagicBytes(data));
    }
  }

  /** `ImageFormat::mime_type`. */
  function MimeType(f: ImageFormat): string
  {
    match f
    case Png => "image/png"
    case Jpeg => "image/jpeg"
    case Gif => "image/gif"
    case Bmp => "image/bmp"
    case WebP => "image/webp"
    case Svg => "image/svg+xml"
    case Tiff => "image/tiff"
    case Unknown => "application/octet-stream"
  }

  /** `ImageFormat::extension`. */
  function Extension(f: ImageFormat): string
  {
    match f
    case Png => "png"
    case Jpeg => "jpg"
    case Gif => "gif"
    case Bmp => "bmp"
    case WebP => "webp"
    case Svg => "svg"
    case Tiff => "tiff"
    case Unknown => "bin"
  }

  /** Distinct formats have distinct MIME types and extensions, so either
      one identifies the format. */
  lemma MimeTypeExtensionInjective(f: ImageFormat, g: ImageFormat)
    requires f != g
    ensures MimeType(f) != MimeType(g)
    ensures Extension(f) != Extension(g)
  {
  }

  /** The format a package part's content type stands for when it is loaded
      as an image: the image types name theirs, a thumbnail is sniffed, and
      anything else is unsupported. */
  function FormatOfContentType(ct: OoxmlTypes.ContentType, data: seq<Byte>): (r: Option<ImageFormat>)
    ensures r.Some? <==> OoxmlTypes.IsImage(ct) || ct.Thumbnail?
    ensures OoxmlTypes.IsImage(ct) ==> r.Some? && r.value != ImageFormat.Unknown
  {
    match ct
    case ImagePng => Some(Png)
    case ImageJpeg => Some(Jpeg)
    case ImageGif => Some(Gif)
    case ImageBmp => Some(Bmp)
    case ImageWebP => Some(WebP)
    case ImageTiff => Some(Tiff)
    case ImageSvg => Some(Svg)
    case Thumbnail => Some(FromMagicBytes(data))
    case _ => None
  }

  /** A known format's MIME type parses to an image content type that loads
      back as the same format. */
  lemma MimeTypeContentTypeRoundTrip(f: ImageFormat, data: seq<Byte>)
    requires f != ImageFormat.Unknown
    ensures OoxmlTypes.IsImage(OoxmlTypes.ContentTypeFromString(MimeType(f)))
    ensures FormatOfContentType(OoxmlTypes.ContentTypeFromString(MimeType(f)), data) == Some(f)
  {
  }

  // ---------------------------------------------------------------------
  // Integer fields
  // ---------------------------------------------------------------------

  /** A big-endian `u32` at byte i. */
  function BeU32(data: seq<Byte>, i: nat): nat
    requires i + 4 <= |data|
  {
    (((data[i] as int) * 0x100 + data[i + 1]) * 0x100 + data[i + 2]) * 0x100 + data[i + 3]
  }

  /** A little-endian `u16` at byte i. */
  function LeU16(data: seq<Byte>, i: nat): nat
    requires i + 2 <= |data|
  {
    (data[i] as int) + (data[i + 1] as int) * 0x100
  }

  /** A little-endian `u32` at byte i. */
  function LeU32(data: seq<Byte>, i: nat): nat
    requires i + 4 <= |data|
  {
    (data[i] as int) + 0x100 * ((data[i + 1] as int) + 0x100 * ((data[i + 2] as int) + 0x100 * (data[i + 3] as int)))
  }

  /** A little-endian two's-complement `i32` at byte i. */
  function LeI32(data: seq<Byte>, i: nat): int
    requires i + 4 <= |data|
  {
    var u := LeU32(data, i);
    if u >= 0x8000_0000 then u - 0x1_0000_0000 else u
  }

  predicate IsU32(n: int) { 0 <= n < 0x1_0000_0000 }

  predicate IsI32(n: int) { -0x8000_0000 <= n < 0x8000_0000 }

  function BeU32Bytes(n: nat): (r: seq<Byte>)
    requires IsU32(n)
    ensures |r| == 4
  {
    var q1 := n / 0x100;
    var q2 := q1 / 0x100;
    [q2 / 0x100, q2 % 0x100, q1 % 0x100, n % 0x100]
  }

  function LeU16Bytes(n: nat): (r: seq<Byte>)
    requires n < 0x1_0000
    ensures |r| == 2
  {
    [n % 0x100, n / 0x100]
  }

  function LeU32Bytes(n: nat): (r: seq<Byte>)
    requires IsU32(n)
    ensures |r| == 4
  {
    var q1 := n / 0x100;
    var q2 := q1 / 0x100;
    [n % 0x100, q1 % 0x100, q2 % 0x100, q2 / 0x100]
  }

  function LeI32Bytes(v: int): (r: seq<Byte>)
    requires IsI32(v)
    ensures |r| == 4
  {
    LeU32Bytes(if v < 0 then v + 0x1_0000_0000 else v)
  }

  /** Reading back what was written recovers the value, for every width. */
  lemma BeU32RoundTrip(data: seq<Byte>, i: nat, n: nat)
    requires IsU32(n) && i + 4 <= |data| && data[i..i + 4] == BeU32Bytes(n)
    ensures BeU32(data, i) == n
  {
    assert data[i] == data[i..i + 4][0] && data[i + 1] == data[i..i + 4][1];
    assert data[i + 2] == data[i..i + 4][2] && data[i + 3] == data[i..i + 4][3];
  }

  lemma LeU16RoundTrip(data: seq<Byte>, i: nat, n: nat)
    requires n < 0x1_0000 && i + 2 <= |data| && data[i..i + 2] == LeU16Bytes(n)
    ensures LeU16(data, i) == n
  {
    assert data[i] == data[i..i + 2][0] && data[i + 1] == data[i..i + 2][1];
  }

  lemma LeU32RoundTrip(data: seq<Byte>, i: nat, n: nat)
    requires IsU32(n) && i + 4 <= |data| && data[i..i + 4] == LeU32Bytes(n)
    ensures LeU32(data, i) == n
  {
    assert data[i] == data[i..i + 4][0] && data[i + 1] == data[i..i + 4][1];
    assert data[i + 2] == data[i..i + 4][2] && data[i + 3] == data[i..i + 4][3];
  }

  lemma LeI32RoundTrip(data: seq<Byte>, i: nat, v: int)
    requires IsI32(v) && i + 4 <= |data| && data[i..i + 4] == LeI32Bytes(v)
    ensures LeI32(data, i) == v
  {
    LeU32RoundTrip(data, i, if v < 0 then v + 0x1_0000_0000 else v);
  }

  // ---------------------------------------------------------------------
  // Dimension decoding
  // ---------------------------------------------------------------------

  datatype Dimensions = Dimensions(width: nat, height: nat)

  datatype ImageError =
    | UnknownFormat
    | UnsupportedFormat
    | DecodeError(message: string)
    | DimensionsExceeded
    | InvalidDimensions
    | NotFound
    | OoxmlLoadError(message: string)

  /** The largest PNG side accepted. */
  const MaxPngSide := 1_000_000

  /** PNG: the IHDR width and height, big-endian at bytes 16 and 20. */
  function DecodePng(data: seq<Byte>): (r: Result<Dimensions, ImageError>)
    ensures |data| < 24 ==> r == Err(InvalidDimensions)
    ensures r.Ok? ==> 0 < r.value.width <= MaxPngSide && 0 < r.value.height <= MaxPngSide
    ensures r.Err? ==> r.error == InvalidDimensions || r.error == DimensionsExceeded
  {
    if |data| < 24 then Err(InvalidDimensions)
    else
      var width := BeU32(data, 16);
      var height := BeU32(data, 20);
      if width == 0 || height == 0 then Err(InvalidDimensions)
      else if width > MaxPngSide || height > MaxPngSide then Err(DimensionsExceeded)
      else Ok(Dimensions(width, height))
  }

  /** "IHDR". */
  const IhdrTag: seq<Byte> := [0x49, 0x48, 0x44, 0x52]

  /** The first 24 bytes of a PNG file of the given size: signature, IHDR
      length and tag, width, height. */
  function PngHeader(width: nat, height: nat): (r: seq<Byte>)
    requires IsU32(width) && IsU32(height)
    ensures |r| == 24
  {
    PngSignature + [0, 0, 0, 0x0D] + IhdrTag + BeU32Bytes(width) + BeU32Bytes(height)
  }

  /** A PNG header is detected as PNG and decodes to the size written into
      it, or to the error its size calls for. */
  lemma DecodePngRoundTrip(width: nat, height: nat, rest: seq<Byte>)
    requires IsU32(width) && IsU32(height)
    ensures FromMagicBytes(PngHeader(width, height) + rest) == Png
    ensures 0 < width <= MaxPngSide && 0 < height <= MaxPngSide ==>
              DecodePng(PngHeader(width, height) + rest) == Ok(Dimensions(width, height))
    ensures width == 0 || height == 0 ==> DecodePng(PngHeader(width, height) + rest) == Err(InvalidDimensions)
    ensures width > 0 && height > 0 && (width > MaxPngSide || height > MaxPngSide) ==>
              DecodePng(PngHeader(width, height) + rest) == Err(DimensionsExceeded)
  {
    var data := PngHeader(width, height) + rest;
    assert data[..8] == PngSignature;
    assert data[16..20] == BeU32Bytes(width);
    assert data[20..24] == BeU32Bytes(height);
    BeU32RoundTrip(data, 16, width);
    BeU32RoundTrip(data, 20, height);
  }

  /** The 100 by 200 image of the decoder's own example. */
  lemma DecodePngExample()
    ensures DecodePng(PngHeader(100, 200) + [0x08, 0x02, 0, 0, 0, 0, 0, 0, 0]) == Ok(Dimensions(100, 200))
  {
    DecodePngRoundTrip(100, 200, [0x08, 0x02, 0, 0, 0, 0, 0, 0, 0]);
  }

  /** GIF: the logical screen width and height, little-endian at bytes 6
      and 8. */
  function DecodeGif(data: seq<Byte>): (r: Result<Dimensions, ImageError>)
    ensures |data| < 10 ==> r == Err(InvalidDimensions)
    ensures r.Ok? ==> 0 < r.value.width < 0x1_0000 && 0 < r.value.height < 0x1_0000
    ensures r.Err? ==> r.error == InvalidDimensions
  {
    if |data| < 10 then Err(InvalidDimensions)
    else
      var width := LeU16(data, 6);
      var height := LeU16(data, 8);
      if width == 0 || height == 0 then Err(InvalidDimensions)
      else Ok(Dimensions(width, height))
  }

  /** A GIF89a header with its logical screen descriptor (flags, background
      colour and aspect ratio zero). */
  function GifHeader(width: nat, height: nat): (r: seq<Byte>)
    requires width < 0x1_0000 && height < 0x1_0000
    ensures |r| == 13
  {
    Gif89a + LeU16Bytes(width) + LeU16Bytes(height) + [0, 0, 0]
  }

  lemma DecodeGifRoundTrip(width: nat, height: nat)
    requires width < 0x1_0000 && height < 0x1_0000
    ensures FromMagicBytes(GifHeader(width, height)) == Gif
    ensures DecodeGif(GifHeader(width, height)) ==
              if width == 0 || height == 0 then Err(InvalidDimensions) else Ok(Dimensions(width, height))
  {
    var data := GifHeader(width, height);
    assert data[..6] == Gif89a;
    FromMagicBytesIff(data, Gif);
    assert data[6..8] == LeU16Bytes(width);
    assert data[8..10] == LeU16Bytes(height);
    LeU16RoundTrip(data, 6, width);
    LeU16RoundTrip(data, 8, height);
  }

  /** The 320 by 240 screen of the decoder's own example. */
  lemma DecodeGifExample()
    ensures DecodeGif(Gif89a + [0x40, 0x01, 0xF0, 0x00, 0x00, 0x00]) == Ok(Dimensions(320, 240))
  {
  }

  function Abs(n: int): nat
  {
    if n < 0 then -n else n
  }

  /** Fourteen bytes of file header, then the 40-byte info header. */
  const BmpHeaderLength := 54
  const BitmapInfoHeaderSize := 40

  /** BMP as the Rust code reads it: the height from bytes 14..18 and the width
      from 18..22.  A non-positive width or a zero height is an error; a
      negative height (a top-down bitmap) counts by its magnitude. */
  function DecodeBmpAsWritten(data: seq<Byte>): (r: Result<Dimensions, ImageError>)
    ensures |data| < BmpHeaderLength ==> r == Err(InvalidDimensions)
    ensures r.Ok? ==> r.value.width > 0 && r.value.height > 0
  {
    if |data| < BmpHeaderLength then Err(InvalidDimensions)
    else
      var height := LeI32(data, 14);
      var width := LeI32(data, 18);
      if width <= 0 || height == 0 then Err(InvalidDimensions)
      else Ok(Dimensions(width, Abs(height)))
  }

  /** BMP with the info header read where it lies: bytes 14..18 hold the
      header's own size, the width is at 18..22 and the height at 22..26. */
  function DecodeBmpCorrected(data: seq<Byte>): (r: Result<Dimensions, ImageError>)
    ensures |data| < BmpHeaderLength ==> r == Err(InvalidDimensions)
    ensures r.Ok? ==> r.value.width > 0 && r.value.height > 0
  {
    if |data| < BmpHeaderLength then Err(InvalidDimensions)
    else
      var width := LeI32(data, 18);
      var height := LeI32(data, 22);
      if width <= 0 || height == 0 then Err(InvalidDimensions)
      else Ok(Dimensions(width, Abs(height)))
  }

  /** The first 54 bytes of a 24-bit uncompressed BMP file: "BM", file
      size, reserved, pixel offset 54, then the info header (size 40, width,
      height, one plane, 24 bits per pixel, the rest zero). */
  function BmpHeader(fileSize: nat, width: int, height: int): (r: seq<Byte>)
    requires IsU32(fileSize) && IsI32(width) && IsI32(height)
    ensures |r| == BmpHeaderLength
  {
    BmpSignature + LeU32Bytes(fileSize) + [0, 0, 0, 0] + LeU32Bytes(BmpHeaderLength)
    + LeU32Bytes(BitmapInfoHeaderSize) + LeI32Bytes(width) + LeI32Bytes(height)
    + [1, 0, 24, 0] + seq(24, _ => 0)
  }

  /** Data that starts with a BMP file header followed by an info header
      giving the width and height. */
  predicate BitmapInfo(data: seq<Byte>, width: int, height: int)
  {
    |data| >= BmpHeaderLength && HasPrefix(data, BmpSignature)
    && LeU32(data, 14) == BitmapInfoHeaderSize && LeI32(data, 18) == width && LeI32(data, 22) == height
  }

  lemma BmpHeaderIsBitmapInfo(fileSize: nat, width: int, height: int, rest: seq<Byte>)
    requires IsU32(fileSize) && IsI32(width) && IsI32(height)
    ensures BitmapInfo(BmpHeader(fileSize, width, height) + rest, width, height)
    ensures FromMagicBytes(BmpHeader(fileSize, width, height) + rest) == Bmp
  {
    var data := BmpHeader(fileSize, width, height) + rest;
    assert data[..2] == BmpSignature;
    FromMagicBytesIff(data, Bmp);
    assert data[14..18] == LeU32Bytes(BitmapInfoHeaderSize);
    assert data[18..22] == LeI32Bytes(width);
    assert data[22..26] == LeI32Bytes(height);
    LeU32RoundTrip(data, 14, BitmapInfoHeaderSize);
    LeI32RoundTrip(data, 18, width);
    LeI32RoundTrip(data, 22, height);
  }

  /** The corrected decoder returns the size stored in the info header. */
  lemma DecodeBmpReadsInfoHeader(data: seq<Byte>, width: int, height: int)
    requires BitmapInfo(data, width, height)
    ensures width > 0 && height != 0 ==> DecodeBmpCorrected(data) == Ok(Dimensions(width, Abs(height)))
    ensures width <= 0 || height == 0 ==> DecodeBmpCorrected(data) == Err(InvalidDimensions)
  {
  }

  /** As written, every bitmap with a standard info header of positive
      width is reported 40 pixels high, whatever its height. */
  lemma DecodeBmpAsWrittenReportsHeaderSize(data: seq<Byte>, width: int, height: int)
    requires BitmapInfo(data, width, height) && width > 0
    ensures DecodeBmpAsWritten(data) == Ok(Dimensions(width, BitmapInfoHeaderSize))
  {
  }

  /** A 2 by 3 bitmap: read as written it is 2 by 40; corrected, 2 by 3. */
  lemma BmpHeightMisread()
    ensures DecodeBmpAsWritten(BmpHeader(72, 2, 3)) == Ok(Dimensions(2, 40))
    ensures DecodeBmpCorrected(BmpHeader(72, 2, 3)) == Ok(Dimensions(2, 3))
  {
    BmpHeaderIsBitmapInfo(72, 2, 3, []);
    assert BmpHeader(72, 2, 3) + [] == BmpHeader(72, 2, 3);
    DecodeBmpAsWrittenReportsHeaderSize(BmpHeader(72, 2, 3), 2, 3);
    DecodeBmpReadsInfoHeader(BmpHeader(72, 2, 3), 2, 3);
  }

  /** `decode_dimensions`: the decoder for the format; `other` stands for the
      result of the decoders outside this model (JPEG, WebP, SVG, TIFF). */
  function DecodeDimensions(data: seq<Byte>, format: ImageFormat, other: Result<Dimensions, ImageError>): (r: Result<Dimensions, ImageError>)
    ensures format == ImageFormat.Unknown ==> r == Err(UnknownFormat)
    ensures format.Png? ==> r == DecodePng(data)
    ensures format.Gif? ==> r == DecodeGif(data)
    ensures format.Bmp? ==> r == DecodeBmpAsWritten(data)
    ensures format.Jpeg? || format.WebP? || format.Svg? || format.Tiff? ==> r == other
  {
    match format
    case Png => DecodePng(data)
    case Gif => DecodeGif(data)
    case Bmp => DecodeBmpAsWritten(data)
    case Unknown => Err(UnknownFormat)
    case _ => other
  }

  /** `decode_dimensions` with the bitmap size read where the info header holds it. */
  function DecodeDimensionsCorrected(data: seq<Byte>, format: ImageFormat, other: Result<Dimensions, ImageError>): (r: Result<Dimensions, ImageError>)
    ensures format != Bmp ==> r == DecodeDimensions(data, format, other)
    ensures format.Bmp? ==> r == DecodeBmpCorrected(data)
  {
    if format == Bmp then DecodeBmpCorrected(data) else DecodeDimensions(data, format, other)
  }

  /** On a bitmap with a standard info header the two decoders differ exactly when the height is not 40. */
  lemma DecodeDimensionsBmpDiffers(data: seq<Byte>, width: int, height: int, other: Result<Dimensions, ImageError>)
    requires BitmapInfo(data, width, height) && width > 0 && height != 0
    ensures DecodeDimensions(data, Bmp, other) == Ok(Dimensions(width, BitmapInfoHeaderSize))
    ensures DecodeDimensionsCorrected(data, Bmp, other) == Ok(Dimensions(width, Abs(height)))
  {
    DecodeBmpAsWrittenReportsHeaderSize(data, width, height);
    DecodeBmpReadsInfoHeader(data, width, height);
  }

  // ---------------------------------------------------------------------
  // The image cache
  // ---------------------------------------------------------------------

  datatype ColorType = Grayscale | GrayscaleAlpha | Rgb | Rgba | Palette | Unknown

  datatype ImageData = ImageData(
    data: seq<Byte>,
    format: ImageFormat,
    dimensions: Dimensions,
    isAnimated: bool,
    frameCount: nat,
    bitDepth: nat,
    colorType: ColorType)

  /** A freshly loaded image: one still RGBA frame at 32 bits. */
  function LoadedImage(data: seq<Byte>, format: ImageFormat, dimensions: Dimensions): ImageData
  {
    ImageData(data, format, dimensions, false, 1, 32, ColorType.Rgba)
  }

  datatype Entry = Entry(path: string, image: ImageData)

  /** The cache's entries in iteration order; the first entry is the one
      evicted first. */
  datatype ImageCache = ImageCache(entries: seq<Entry>, maxSizeBytes: nat, currentSize: nat)

  datatype Loaded = Loaded(cache: ImageCache, result: Result<ImageData, ImageError>)

  datatype Removed = Removed(cache: ImageCache, removed: Option<ImageData>)

  const DefaultMaxSizeBytes := 100 * 1024 * 1024

  predicate DistinctPaths(entries: seq<Entry>)
  {
    forall i, j :: 0 <= i < j < |entries| ==> entries[i].path != entries[j].path
  }

  /** The bytes held by the entries. */
  function TotalBytes(entries: seq<Entry>): nat
  {
    if |entries| == 0 then 0 else |entries[0].image.data| + TotalBytes(entries[1..])
  }

  /** The size counter is exactly the bytes held. */
  predicate Consistent(c: ImageCache)
  {
    DistinctPaths(c.entries) && c.currentSize == TotalBytes(c.entries)
  }

  /** The size counter is at least the bytes held, so that subtracting an
      entry's length never goes below zero. */
  predicate Covered(c: ImageCache)
  {
    DistinctPaths(c.entries) && TotalBytes(c.entries) <= c.currentSize
  }

  /** `ImageCache::new`. */
  function NewCache(): (c: ImageCache)
    ensures Consistent(c) && c.entries == [] && c.maxSizeBytes == 104_857_600
  {
    ImageCache([], DefaultMaxSizeBytes, 0)
  }

  /** `ImageCache::with_max_size`. */
  function WithMaxSize(maxSizeBytes: nat): (c: ImageCache)
    ensures Consistent(c) && c.entries == [] && c.maxSizeBytes == maxSizeBytes
  {
    ImageCache([], maxSizeBytes, 0)
  }

  /** The position of the entry for a path. */
  function Find(entries: seq<Entry>, path: string): (r: Option<nat>)
    ensures r.Some? ==> r.value < |entries| && entries[r.value].path == path
    ensures r.None? ==> forall i :: 0 <= i < |entries| ==> entries[i].path != path
  {
    if |entries| == 0 then None
    else if entries[0].path == path then Some(0)
    else match Find(entries[1..], path)
      case Some(i) => Some(i + 1)
      case None => None
  }

  /** `ImageCache::get`. */
  function Get(c: ImageCache, path: string): (r: Option<ImageData>)
    ensures r.Some? <==> exists i :: 0 <= i < |c.entries| && c.entries[i].path == path
    ensures r.Some? ==> exists i :: 0 <= i < |c.entries| && c.entries[i] == Entry(path, r.value)
  {
    match Find(c.entries, path)
    case Some(i) => Some(c.entries[i].image)
    case None => None
  }

  /** `ImageCache::contains`. */
  predicate Contains(c: ImageCache, path: string)
  {
    Get(c, path).Some?
  }

  /** `ImageCache::len`, `is_empty` and `size_bytes`. */
  function Len(c: ImageCache): nat { |c.entries| }

  predicate IsEmpty(c: ImageCache) { |c.entries| == 0 }

  function SizeBytes(c: ImageCache): nat { c.currentSize }

  /** In a consistent cache, the size reported is the sum of the lengths of
      the images that `get` returns, and an empty cache reports zero. */
  lemma SizeBytesCountsImages(c: ImageCache)
    requires Consistent(c)
    ensures IsEmpty(c) ==> SizeBytes(c) == 0
    ensures SizeBytes(c) == TotalBytes(c.entries)
  {
  }

  function RemoveAt(entries: seq<Entry>, i: nat): (r: seq<Entry>)
    requires i < |entries|
    ensures |r| == |entries| - 1
  {
    entries[..i] + entries[i + 1..]
  }

  lemma {:induction false} TotalBytesRemoveAt(entries: seq<Entry>, i: nat)
    requires i < |entries|
    ensures TotalBytes(entries) == TotalBytes(RemoveAt(entries, i)) + |entries[i].image.data|
  {
    if i > 0 {
      TotalBytesRemoveAt(entries[1..], i - 1);
      assert RemoveAt(entries, i) == [entries[0]] + RemoveAt(entries[1..], i - 1);
      assert RemoveAt(entries, i)[1..] == RemoveAt(entries[1..], i - 1);
    } else {
      assert RemoveAt(entries, 0) == entries[1..];
    }
  }

  lemma {:induction false} TotalBytesAppend(entries: seq<Entry>, e: Entry)
    ensures TotalBytes(entries + [e]) == TotalBytes(entries) + |e.image.data|
  {
    if |entries| > 0 {
      assert (entries + [e])[1..] == entries[1..] + [e];
      TotalBytesAppend(entries[1..], e);
    } else {
      assert (entries + [e])[1..] == [];
    }
  }

  lemma {:induction false} TotalBytesReplace(entries: seq<Entry>, i: nat, e: Entry)
    requires i < |entries|
    ensures TotalBytes(entries[i := e]) + |entries[i].image.data| == TotalBytes(entries) + |e.image.data|
  {
    if i > 0 {
      assert entries[i := e][1..] == entries[1..][i - 1 := e];
      TotalBytesReplace(entries[1..], i - 1, e);
    } else {
      assert entries[0 := e][1..] == entries[1..];
    }
  }

  lemma RemoveAtKeepsDistinct(entries: seq<Entry>, i: nat)
    requires i < |entries| && DistinctPaths(entries)
    ensures DistinctPaths(RemoveAt(entries, i))
    ensures forall k :: 0 <= k < |RemoveAt(entries, i)| ==> RemoveAt(entries, i)[k].path != entries[i].path
  {
    var r := RemoveAt(entries, i);
    forall k | 0 <= k < |r|
      ensures r[k] == if k < i then entries[k] else entries[k + 1]
    {
    }
  }

  /** `ImageCache::remove`: the entry for the path leaves the cache and its
      length leaves the size counter; a missing path changes nothing. */
  function Remove(c: ImageCache, path: string): (r: Removed)
    requires Covered(c)
    ensures r.removed == Get(c, path)
    ensures !Contains(r.cache, path)
    ensures r.cache.maxSizeBytes == c.maxSizeBytes
    ensures r.removed.None? ==> r.cache == c
    ensures r.removed.Some? ==> (r.cache.currentSize + |r.removed.value.data| == c.currentSize
                                 && Len(r.cache) + 1 == Len(c))
    ensures forall p :: p != path ==> Get(r.cache, p) == Get(c, p)
    ensures Covered(r.cache)
    ensures Consistent(c) ==> Consistent(r.cache)
  {
    match Find(c.entries, path)
    case None => Removed(c, None)
    case Some(i) =>
      TotalBytesRemoveAt(c.entries, i);
      RemoveAtKeepsDistinct(c.entries, i);
      var rest := RemoveAt(c.entries, i);
      var next := ImageCache(rest, c.maxSizeBytes, c.currentSize - |c.entries[i].image.data|);
      RemoveAtGet(c, i, next);
      Removed(next, Some(c.entries[i].image))
  }

  lemma RemoveAtGet(c: ImageCache, i: nat, next: ImageCache)
    requires i < |c.entries| && DistinctPaths(c.entries) && next.entries == RemoveAt(c.entries, i)
    ensures Get(next, c.entries[i].path).None?
    ensures forall p :: p != c.entries[i].path ==> Get(next, p) == Get(c, p)
  {
    RemoveAtKeepsDistinct(c.entries, i);
    forall p | p != c.entries[i].path
      ensures Get(next, p) == Get(c, p)
    {
      var rest := next.entries;
      assert forall k :: 0 <= k < |rest| ==> rest[k] == if k < i then c.entries[k] else c.entries[k + 1];
      GetDistinct(c, p);
      GetDistinct(next, p);
      if Get(c, p).Some? {
        var j :| 0 <= j < |c.entries| && c.entries[j] == Entry(p, Get(c, p).value);
        assert j != i;
        var k := if j < i then j else j - 1;
        assert rest[k] == c.entries[j];
      }
      if Get(next, p).Some? {
        var k :| 0 <= k < |rest| && rest[k].path == p;
        assert rest[k] == if k < i then c.entries[k] else c.entries[k + 1];
      }
    }
  }

  /** With distinct paths, `get` returns the image of the one entry that
      has the path. */
  lemma GetDistinct(c: ImageCache, p: string)
    requires DistinctPaths(c.entries)
    ensures forall j :: 0 <= j < |c.entries| && c.entries[j].path == p ==> Get(c, p) == Some(c.entries[j].image)
  {
  }

  /** `ImageCache::clear`. */
  function Clear(c: ImageCache): (r: ImageCache)
    ensures Consistent(r) && IsEmpty(r) && SizeBytes(r) == 0
    ensures r.maxSizeBytes == c.maxSizeBytes
    ensures forall p :: !Contains(r, p)
  {
    ImageCache([], c.maxSizeBytes, 0)
  }

  /** The eviction loop of `load`: while the new entry does not fit and the
      cache is not empty, the first entry goes. */
  function Evict(c: ImageCache, entrySize: nat): (r: ImageCache)
    requires Covered(c)
    ensures r.maxSizeBytes == c.maxSizeBytes
    ensures |r.entries| <= |c.entries| && r.entries == c.entries[|c.entries| - |r.entries|..]
    ensures r.entries == [] || r.currentSize + entrySize <= r.maxSizeBytes
    ensures c.currentSize + entrySize <= c.maxSizeBytes ==> r == c
    ensures Covered(r)
    ensures Consistent(c) ==> Consistent(r)
    decreases |c.entries|
  {
    if c.currentSize + entrySize > c.maxSizeBytes && |c.entries| > 0 then
      var rest := DropOldest(c);
      Evict(rest, entrySize)
    else c
  }

  /** One eviction step: the oldest entry leaves and its bytes come off the counter. */
  function DropOldest(c: ImageCache): (r: ImageCache)
    requires Covered(c) && |c.entries| > 0
    ensures r.entries == c.entries[1..] && r.maxSizeBytes == c.maxSizeBytes
    ensures r.currentSize == c.currentSize - |c.entries[0].image.data|
    ensures Covered(r)
    ensures Consistent(c) ==> Consistent(r)
  {
    assert c.entries[1..] == RemoveAt(c.entries, 0);
    RemoveAtKeepsDistinct(c.entries, 0);
    ImageCache(c.entries[1..], c.maxSizeBytes, c.currentSize - |c.entries[0].image.data|)
  }

  lemma SuffixKeepsDistinct(entries: seq<Entry>, k: nat)
    requires k <= |entries| && DistinctPaths(entries)
    ensures DistinctPaths(entries[k..])
  {
    var s := entries[k..];
    forall i, j | 0 <= i < j < |s|
      ensures s[i].path != s[j].path
    {
      assert s[i] == entries[k + i] && s[j] == entries[k + j];
    }
  }

  /** Placing an entry as `HashMap::insert` does: an entry with the same
      path is replaced where it stands; otherwise the entry goes last. */
  function Insert(entries: seq<Entry>, e: Entry): (r: seq<Entry>)
  {
    match Find(entries, e.path)
    case Some(i) => entries[i := e]
    case None => entries + [e]
  }

  lemma InsertProperties(c: ImageCache, e: Entry, next: ImageCache)
    requires DistinctPaths(c.entries) && next.entries == Insert(c.entries, e)
    ensures DistinctPaths(next.entries)
    ensures Get(next, e.path) == Some(e.image)
    ensures forall p :: p != e.path ==> Get(next, p) == Get(c, p)
    ensures Find(c.entries, e.path).None? ==> TotalBytes(next.entries) == TotalBytes(c.entries) + |e.image.data|
    ensures Find(c.entries, e.path).Some? ==>
              TotalBytes(next.entries) + |c.entries[Find(c.entries, e.path).value].image.data|
                == TotalBytes(c.entries) + |e.image.data|
  {
    var r := next.entries;
    match Find(c.entries, e.path)
    case Some(i) =>
      TotalBytesReplace(c.entries, i, e);
      assert forall k :: 0 <= k < |r| ==> r[k].path == c.entries[k].path;
      assert DistinctPaths(r);
      GetDistinct(next, e.path);
      assert r[i] == e;
      forall p | p != e.path
        ensures Get(next, p) == Get(c, p)
      {
        GetDistinct(c, p);
        GetDistinct(next, p);
        if Get(c, p).Some? {
          var j :| 0 <= j < |c.entries| && c.entries[j] == Entry(p, Get(c, p).value);
          assert r[j] == c.entries[j];
        }
        if Get(next, p).Some? {
          var k :| 0 <= k < |r| && r[k].path == p;
          assert r[k] == c.entries[k];
        }
      }
    case None =>
      TotalBytesAppend(c.entries, e);
      assert DistinctPaths(r);
      GetDistinct(next, e.path);
      assert r[|c.entries|] == e;
      forall p | p != e.path
        ensures Get(next, p) == Get(c, p)
      {
        GetDistinct(c, p);
        GetDistinct(next, p);
        if Get(c, p).Some? {
          var j :| 0 <= j < |c.entries| && c.entries[j] == Entry(p, Get(c, p).value);
          assert r[j] == c.entries[j];
        }
        if Get(next, p).Some? {
          var k :| 0 <= k < |r| && r[k].path == p;
          assert k < |c.entries|;
          assert r[k] == c.entries[k];
        }
      }
  }

  /** The insertion step of `load` as written: evict, insert (replacing an
      entry with the same path), then add the new length to the counter
      without taking off the length of an entry it replaced. */
  function StoreAsWritten(c: ImageCache, path: string, image: ImageData): (r: ImageCache)
    requires Covered(c)
    ensures Covered(r)
    ensures r.maxSizeBytes == c.maxSizeBytes
    ensures Get(r, path) == Some(image)
  {
    var ev := Evict(c, |image.data|);
    var next := ImageCache(Insert(ev.entries, Entry(path, image)), ev.maxSizeBytes, ev.currentSize + |image.data|);
    InsertProperties(ev, Entry(path, image), next);
    next
  }

  /** The insertion step with the size counter kept exact: an entry already
      cached under the path is taken out first, its length with it, then
      the loop evicts and the new entry goes last. */
  function StoreCorrected(c: ImageCache, path: string, image: ImageData): (r: ImageCache)
    requires Consistent(c)
    ensures Consistent(r)
    ensures r.maxSizeBytes == c.maxSizeBytes
    ensures Get(r, path) == Some(image)
    ensures r.currentSize <= r.maxSizeBytes || r.entries == [Entry(path, image)]
    ensures forall p :: p != path && Contains(r, p) ==> Get(r, p) == Get(c, p)
  {
    var base := Remove(c, path).cache;
    var ev := Evict(base, |image.data|);
    SuffixKeepsDistinct(base.entries, |base.entries| - |ev.entries|);
    EvictKeepsImages(base, |image.data|);
    assert Find(ev.entries, path).None? by {
      SuffixLacksPath(base, ev, path);
    }
    var next := ImageCache(Insert(ev.entries, Entry(path, image)), ev.maxSizeBytes, ev.currentSize + |image.data|);
    InsertProperties(ev, Entry(path, image), next);
    assert next.entries == ev.entries + [Entry(path, image)];
    next
  }

  lemma SuffixLacksPath(base: ImageCache, ev: ImageCache, path: string)
    requires !Contains(base, path)
    requires |ev.entries| <= |base.entries| && ev.entries == base.entries[|base.entries| - |ev.entries|..]
    ensures Find(ev.entries, path).None?
  {
    SuffixFind(base, ev, path);
  }

  /** A path found in a suffix of the entries is found in the entries. */
  lemma SuffixFind(base: ImageCache, ev: ImageCache, path: string)
    requires |ev.entries| <= |base.entries| && ev.entries == base.entries[|base.entries| - |ev.entries|..]
    ensures Find(ev.entries, path).Some? ==> Contains(base, path)
  {
    var k := |base.entries| - |ev.entries|;
    if Find(ev.entries, path).Some? {
      var i := Find(ev.entries, path).value;
      assert base.entries[k + i].path == path;
      assert Find(base.entries, path).Some?;
    }
  }

  /** Eviction only drops entries: whatever is still cached afterwards has
      the image it had before. */
  lemma EvictKeepsImages(c: ImageCache, entrySize: nat)
    requires Covered(c)
    ensures forall p :: Contains(Evict(c, entrySize), p) ==> Get(Evict(c, entrySize), p) == Get(c, p)
  {
    var r := Evict(c, entrySize);
    var k := |c.entries| - |r.entries|;
    SuffixKeepsDistinct(c.entries, k);
    forall p | Contains(r, p)
      ensures Get(r, p) == Get(c, p)
    {
      var i := Find(r.entries, p).value;
      assert r.entries[i] == c.entries[k + i];
      GetDistinct(c, p);
      GetDistinct(r, p);
    }
  }

  /** `ImageCache::load` as written. */
  function LoadAsWritten(c: ImageCache, path: string, data: seq<Byte>, other: Result<Dimensions, ImageError>): (r: Loaded)
    requires Covered(c)
    ensures FromMagicBytes(data) == ImageFormat.Unknown ==> r == Loaded(c, Err(UnknownFormat))
    ensures r.result.Err? ==> r.cache == c
    ensures r.result.Ok? ==> (
              var image := r.result.value;
              image.data == data && image.format == FromMagicBytes(data)
              && DecodeDimensions(data, image.format, other) == Ok(image.dimensions)
              && Get(r.cache, path) == Some(image))
    ensures Covered(r.cache)
  {
    var format := FromMagicBytes(data);
    if format == ImageFormat.Unknown then Loaded(c, Err(UnknownFormat))
    else match DecodeDimensions(data, format, other)
      case Err(e) => Loaded(c, Err(e))
      case Ok(dimensions) =>
        var image := LoadedImage(data, format, dimensions);
        Loaded(StoreAsWritten(c, path, image), Ok(image))
  }

  /** `ImageCache::load` with the counter kept exact.  An input of unknown
      format or whose header does not decode leaves the cache unchanged;
      otherwise the image is cached under the path with the format detected
      and the size decoded, the counter stays the sum of the cached
      lengths, and the cache is within its limit unless the new image alone
      exceeds it. */
  function LoadCorrected(c: ImageCache, path: string, data: seq<Byte>, other: Result<Dimensions, ImageError>): (r: Loaded)
    requires Consistent(c)
    ensures FromMagicBytes(data) == ImageFormat.Unknown ==> r == Loaded(c, Err(UnknownFormat))
    ensures r.result.Err? ==> r.cache == c
    ensures r.result.Ok? ==> (
              var image := r.result.value;
              image.data == data && image.format == FromMagicBytes(data)
              && DecodeDimensionsCorrected(data, image.format, other) == Ok(image.dimensions)
              && Get(r.cache, path) == Some(image)
              && (r.cache.currentSize <= r.cache.maxSizeBytes || r.cache.entries == [Entry(path, image)]))
    ensures forall p :: p != path && Contains(r.cache, p) ==> Get(r.cache, p) == Get(c, p)
    ensures Consistent(r.cache)
  {
    var format := FromMagicBytes(data);
    if format == ImageFormat.Unknown then Loaded(c, Err(UnknownFormat))
    else match DecodeDimensionsCorrected(data, format, other)
      case Err(e) => Loaded(c, Err(e))
      case Ok(dimensions) =>
        var image := LoadedImage(data, format, dimensions);
        Loaded(StoreCorrected(c, path, image), Ok(image))
  }

  /** `ImageCache::load_from_ooxml`: the format comes from the part's content
      type (a thumbnail is sniffed), other content types are unsupported,
      the dimensions are decoded and the image is stored as `load` stores it. */
  function LoadFromOoxml(c: ImageCache, data: seq<Byte>, contentType: OoxmlTypes.ContentType, path: string,
                         other: Result<Dimensions, ImageError>): (r: Loaded)
    requires Covered(c)
    ensures FormatOfContentType(contentType, data).None? ==> r == Loaded(c, Err(UnsupportedFormat))
    ensures r.result.Err? ==> r.cache == c
    ensures r.result.Ok? ==> (
              var image := r.result.value;
              image.data == data && Some(image.format) == FormatOfContentType(contentType, data)
              && DecodeDimensions(data, image.format, other) == Ok(image.dimensions)
              && Get(r.cache, path) == Some(image))
    ensures Covered(r.cache)
  {
    match FormatOfContentType(contentType, data)
    case None => Loaded(c, Err(UnsupportedFormat))
    case Some(format) =>
      match DecodeDimensions(data, format, other)
      case Err(e) => Loaded(c, Err(e))
      case Ok(dimensions) =>
        var image := LoadedImage(data, format, dimensions);
        Loaded(StoreAsWritten(c, path, image), Ok(image))
  }

  /** `load_from_ooxml` with the corrected bitmap decoder and the counter kept exact. */
  function LoadFromOoxmlCorrected(c: ImageCache, data: seq<Byte>, contentType: OoxmlTypes.ContentType, path: string,
                                  other: Result<Dimensions, ImageError>): (r: Loaded)
    requires Consistent(c)
    ensures FormatOfContentType(contentType, data).None? ==> r == Loaded(c, Err(UnsupportedFormat))
    ensures r.result.Err? ==> r.cache == c
    ensures r.result.Ok? ==> (
              var image := r.result.value;
              image.data == data && Some(image.format) == FormatOfContentType(contentType, data)
              && DecodeDimensionsCorrected(data, image.format, other) == Ok(image.dimensions)
              && Get(r.cache, path) == Some(image))
    ensures forall p :: p != path && Contains(r.cache, p) ==> Get(r.cache, p) == Get(c, p)
    ensures Consistent(r.cache)
  {
    match FormatOfContentType(contentType, data)
    case None => Loaded(c, Err(UnsupportedFormat))
    case Some(format) =>
      match DecodeDimensionsCorrected(data, format, other)
      case Err(e) => Loaded(c, Err(e))
      case Ok(dimensions) =>
        var image := LoadedImage(data, format, dimensions);
        Loaded(StoreCorrected(c, path, image), Ok(image))
  }

  /** For a path not yet cached the two insertion steps agree. */
  lemma StoreAgreesForNewPath(c: ImageCache, path: string, image: ImageData)
    requires Consistent(c) && !Contains(c, path)
    ensures StoreAsWritten(c, path, image) == StoreCorrected(c, path, image)
  {
    var base := Remove(c, path).cache;
    assert base == c;
    var ev := Evict(c, |image.data|);
    var next := ImageCache(Insert(ev.entries, Entry(path, image)), ev.maxSizeBytes, ev.currentSize + |image.data|);
    assert StoreAsWritten(c, path, image) == next;
    assert Evict(base, |image.data|) == ev;
    assert StoreCorrected(c, path, image) == next;
  }

  /** For a path not yet cached the counter of the code as written stays
      exact, and apart from bitmaps the two versions of `load` agree. */
  lemma LoadAgreesForNewPath(c: ImageCache, path: string, data: seq<Byte>, other: Result<Dimensions, ImageError>)
    requires Consistent(c) && !Contains(c, path)
    ensures FromMagicBytes(data) != Bmp ==> LoadAsWritten(c, path, data, other) == LoadCorrected(c, path, data, other)
    ensures Consistent(LoadAsWritten(c, path, data, other).cache)
  {
    var format := FromMagicBytes(data);
    if format != ImageFormat.Unknown && DecodeDimensions(data, format, other).Ok? {
      var image := LoadedImage(data, format, DecodeDimensions(data, format, other).value);
      StoreAgreesForNewPath(c, path, image);
    }
  }

  /** The 2 by 3 bitmap is detected as BMP and decodes as 2 by 40 as written, as 2 by 3 corrected. */
  lemma SmallBmpDecodes(other: Result<Dimensions, ImageError>)
    ensures FromMagicBytes(BmpHeader(72, 2, 3)) == Bmp
    ensures DecodeDimensions(BmpHeader(72, 2, 3), Bmp, other) == Ok(Dimensions(2, 40))
    ensures DecodeDimensionsCorrected(BmpHeader(72, 2, 3), Bmp, other) == Ok(Dimensions(2, 3))
  {
    BmpHeaderIsBitmapInfo(72, 2, 3, []);
    assert BmpHeader(72, 2, 3) + [] == BmpHeader(72, 2, 3);
    BmpHeightMisread();
  }

  /** Loading the 2 by 3 bitmap caches it as 2 by 40 as written. */
  lemma LoadBmpHeightMisread(c: ImageCache, path: string, other: Result<Dimensions, ImageError>)
    requires Covered(c)
    ensures LoadAsWritten(c, path, BmpHeader(72, 2, 3), other).result
              == Ok(LoadedImage(BmpHeader(72, 2, 3), Bmp, Dimensions(2, 40)))
  {
    SmallBmpDecodes(other);
  }

  /** Corrected, the 2 by 3 bitmap is cached as 2 by 3. */
  lemma LoadBmpHeightCorrected(c: ImageCache, path: string, other: Result<Dimensions, ImageError>)
    requires Consistent(c)
    ensures LoadCorrected(c, path, BmpHeader(72, 2, 3), other).result
              == Ok(LoadedImage(BmpHeader(72, 2, 3), Bmp, Dimensions(2, 3)))
  {
    SmallBmpDecodes(other);
  }

  /** Loading the same 24-byte PNG twice under one path, as written: one
      image is cached but the counter reports 48 bytes.  Corrected, it
      reports 24. */
  lemma ReloadCountsTwice()
    ensures var data := PngHeader(1, 1);
            var once := LoadAsWritten(WithMaxSize(1024), "a.png", data, Err(InvalidDimensions));
            var twice := LoadAsWritten(once.cache, "a.png", data, Err(InvalidDimensions));
            Len(twice.cache) == 1 && TotalBytes(twice.cache.entries) == 24 && SizeBytes(twice.cache) == 48
    ensures var data := PngHeader(1, 1);
            var once := LoadCorrected(WithMaxSize(1024), "a.png", data, Err(InvalidDimensions));
            var twice := LoadCorrected(once.cache, "a.png", data, Err(InvalidDimensions));
            Len(twice.cache) == 1 && SizeBytes(twice.cache) == 24
  {
    var data := PngHeader(1, 1);
    DecodePngRoundTrip(1, 1, []);
    assert data + [] == data;
    var image := LoadedImage(data, Png, Dimensions(1, 1));
    var once := LoadAsWritten(WithMaxSize(1024), "a.png", data, Err(InvalidDimensions));
    assert once.cache == ImageCache([Entry("a.png", image)], 1024, 24);
    var twice := LoadAsWritten(once.cache, "a.png", data, Err(InvalidDimensions));
    assert twice.cache == ImageCache([Entry("a.png", image)], 1024, 48);
    var once' := LoadCorrected(WithMaxSize(1024), "a.png", data, Err(InvalidDimensions));
    assert once'.cache.entries == [Entry("a.png", image)];
    var twice' := LoadCorrected(once'.cache, "a.png", data, Err(InvalidDimensions));
    assert twice'.cache.entries == [Entry("a.png", image)];
  }
}
