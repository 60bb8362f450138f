/**
 * `imageType()` of Data+Ex.swift: the image format told from the leading bytes
 * of the data. Only the first byte is read, except for RIFF (`0x52`) and ISO base
 * media (`0x00`) files, where bytes 0-11 or 8-11 are decoded as ASCII.
 */
module ImageSniff {

  newtype Byte = x: int | 0 <= x < 256

  /** `Data.ImageType`. */
  datatype ImageType = Unknow | Jpg | Png | Gif | Tiff | Webp | Heic | Heif

  /** `String(data:encoding: .ascii)`, assumed to map each byte to the character
    * with that code. */
  function Ascii(bytes: seq<Byte>): (s: string)
    ensures |s| == |bytes| && forall i :: 0 <= i < |bytes| ==> s[i] as int == bytes[i] as int
  {
    seq(|bytes|, i requires 0 <= i < |bytes| => (bytes[i] as int) as char)
  }

  /** The one-byte buffer after `copyBytes(to:count: 1)`: zero-initialised, so an
    * empty data reads as `0x00`. */
  function FirstByte(data: seq<Byte>): Byte
  {
    if |data| >= 1 then data[0] else 0
  }

  /** The brands of the ISO base media `ftyp` box accepted as HEIC and HEIF. */
  const HeicBrands: set<string> := {"heic", "heis", "heix", "hevc", "hevx"}
  const HeifBrands: set<string> := {"mif1", "msf1"}

  /** A RIFF container whose form type is WEBP. */
  predicate IsRiffWebp(data: seq<Byte>)
  {
    |data| >= 12 && Ascii(data[0..12])[..4] == "RIFF" && Ascii(data[0..12])[8..] == "WEBP"
  }

  /** The brand at bytes 8-11. */
  function Brand(data: seq<Byte>): string
    requires |data| >= 12
  {
    Ascii(data[8..12])
  }

  /** `imageType()`. */
  function ImageTypeOf(data: seq<Byte>): (t: ImageType)
    ensures data == [] ==> t == Unknow
    ensures FirstByte(data) == 0xFF <==> t == Jpg
    ensures FirstByte(data) == 0x89 <==> t == Png
    ensures FirstByte(data) == 0x47 <==> t == Gif
    ensures FirstByte(data) in {0x49, 0x4D} <==> t == Tiff
    ensures t == Webp <==> FirstByte(data) == 0x52 && IsRiffWebp(data)
    ensures t == Heic <==> FirstByte(data) == 0x00 && |data| >= 12 && Brand(data) in HeicBrands
    ensures t == Heif <==> FirstByte(data) == 0x00 && |data| >= 12 && Brand(data) in HeifBrands
  {
    var b := FirstByte(data);
    if b == 0xFF then Jpg
    else if b == 0x89 then Png
    else if b == 0x47 then Gif
    else if b == 0x49 || b == 0x4D then Tiff
    else if b == 0x52 && |data| >= 12 then
      (if IsRiffWebp(data) then Webp else Unknow)
    else if b == 0x00 && |data| >= 12 then
      var str := Brand(data);
      if str in HeicBrands then Heic
      else if str in HeifBrands then Heif
      else Unknow
    else Unknow
  }

  /** Any other first byte is not an image. */
  lemma OtherFirstByteIsUnknown(data: seq<Byte>)
    requires !(FirstByte(data) in {0xFF, 0x89, 0x47, 0x49, 0x4D, 0x52, 0x00})
    ensures ImageTypeOf(data) == Unknow
  {
  }

  // ---------------------------------------------------------------------------
  // The formats as their standards define their signatures
  // ---------------------------------------------------------------------------

  /** The eight-byte PNG signature (section 5.2 of the PNG specification). */
  const PngSignature: seq<Byte> := [0x89, 0x50, 0x4E, 0x47, 0x0D, 0x0A, 0x1A, 0x0A]

  /** The start of a JPEG file: the SOI marker `FF D8`. */
  const JpegSoi: seq<Byte> := [0xFF, 0xD8]

  /** GIF's `GIF87a` / `GIF89a` header. */
  predicate IsGifHeader(data: seq<Byte>)
  {
    |data| >= 6 && (Ascii(data[..6]) == "GIF87a" || Ascii(data[..6]) == "GIF89a")
  }

  /** The TIFF header byte order and magic: `II*\0` or `MM\0*` (TIFF 6.0,
    * Section 2). */
  predicate IsTiffHeader(data: seq<Byte>)
  {
    |data| >= 4 && (data[..4] == [0x49, 0x49, 0x2A, 0x00] || data[..4] == [0x4D, 0x4D, 0x00, 0x2A])
  }

  /** A RIFF file: "RIFF", a four-byte little-endian size, the form type. */
  predicate IsRiff(data: seq<Byte>, form: string)
  {
    |data| >= 12 && Ascii(data[..4]) == "RIFF" && Ascii(data[8..12]) == form
  }

  /** An ISO base media file whose first box is `ftyp` (ISO/IEC 14496-12,
    * section 4.3): a 32-bit size below 2^24, "ftyp", the major brand. */
  predicate IsFtyp(data: seq<Byte>, brand: string)
  {
    |data| >= 12 && data[0] == 0x00 && Ascii(data[4..8]) == "ftyp" && Ascii(data[8..12]) == brand
  }

  lemma PngIsPng(data: seq<Byte>)
    requires PngSignature <= data
    ensures ImageTypeOf(data) == Png
  {
    assert data[0] == PngSignature[0];
  }

  lemma JpegIsJpg(data: seq<Byte>)
    requires JpegSoi <= data
    ensures ImageTypeOf(data) == Jpg
  {
    assert data[0] == JpegSoi[0];
  }

  lemma GifIsGif(data: seq<Byte>)
    requires IsGifHeader(data)
    ensures ImageTypeOf(data) == Gif
  {
    assert Ascii(data[..6])[0] == 'G';
  }

  lemma TiffIsTiff(data: seq<Byte>)
    requires IsTiffHeader(data)
    ensures ImageTypeOf(data) == Tiff
  {
    assert data[0] == data[..4][0];
  }

  /** A RIFF file is WebP exactly when its form type is "WEBP". */
  lemma RiffIsWebpIff(data: seq<Byte>, form: string)
    requires IsRiff(data, form)
    ensures ImageTypeOf(data) == Webp <==> form == "WEBP"
  {
    var head := Ascii(data[0..12]);
    assert head[..4] == Ascii(data[..4]);
    assert head[8..] == Ascii(data[8..12]);
    assert data[0] as int == head[0] as int == 'R' as int;
  }

  /** An `ftyp` file is HEIC for the HEVC brands and HEIF for the image brands. */
  lemma FtypBrands(data: seq<Byte>, brand: string)
    requires IsFtyp(data, brand)
    ensures ImageTypeOf(data) == Heic <==> brand in HeicBrands
    ensures ImageTypeOf(data) == Heif <==> brand in HeifBrands
    ensures !(brand in HeicBrands) && !(brand in HeifBrands) ==> ImageTypeOf(data) == Unknow
  {
  }
}
