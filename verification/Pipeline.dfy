/** The script from end to end: read an RGBA file, keep its alpha, quantise it, write a gray file. */
module Pipeline {
  import opened Bytes
  import opened Raster
  import opened Filters
  import opened Planes
  import opened Chunks
  import opened PngFile
  import Reader
  import Writer
  import Quantiser

  /** The fourth byte of each of the first n pixels. */
  function Alpha(pixels: seq<Byte>, n: nat): Result<seq<Byte>> {
    if 4 * n <= |pixels| then Ok(seq(n, i requires 0 <= i < n => pixels[i * 4 + 3])) else Err(IndexError)
  }

  /** The coverage bytes the main block hands to the writer. */
  function Coverage(image: Image): Result<seq<Byte>> {
    match Alpha(image.pixels, Span(image.height, image.width))
    case Err(e) => Err(e)
    case Ok(alpha) => Quantiser.Quantise(alpha, Quantiser.LEVELS)
  }

  function MaskOf(image: Image, z: Zlib, crc: seq<Byte> -> nat): Result<seq<Byte>> {
    match Coverage(image)
    case Err(e) => Err(e)
    case Ok(coverage) => GrayFile(image.width, image.height, coverage, z, crc)
  }

  function Mask(data: seq<Byte>, z: Zlib, crc: seq<Byte> -> nat): Result<seq<Byte>> {
    match ReadImage(data, z)
    case Err(e) => Err(e)
    case Ok(image) => MaskOf(image, z, crc)
  }

  method MakeMask(data: seq<Byte>, z: Zlib, crc: seq<Byte> -> nat) returns (r: Result<seq<Byte>>)
    ensures r == Mask(data, z, crc)
  {
    var image := ReadRgba(data, z);
    if image.Err? {
      return Err(image.error);
    }
    var coverage := Coverage(image.value);
    if coverage.Err? {
      return Err(coverage.error);
    }
    r := WriteGray(image.value.width, image.value.height, coverage.value, z, crc);
  }

  // ----- alpha

  lemma AlphaBySize(pixels: seq<Byte>, n: nat, full: nat)
    requires full == 4 * n && |pixels| <= full
    ensures Alpha(pixels, n).Ok? <==> |pixels| == full
  {
  }

  /** The alpha of an image read from a raw stream can be taken exactly when the stream has all its bytes. */
  lemma {:induction false} AlphaExactly(raw: seq<Byte>, w: nat, n: nat, h: nat, pixels: seq<Byte>)
    requires n == 4 * w && Reader.RawImage(raw, h, n, 4) == Ok(pixels)
    ensures Alpha(pixels, Span(h, w)).Ok? <==> Span(h, n + 1) <= |raw|
  {
    SpanOfFour(h, w);
    Reader.FullSizeExactly(raw, h, n, 4, pixels);
    AlphaBySize(pixels, Span(h, w), Span(h, n));
  }

  lemma AlphaIsPlane(pixels: seq<Byte>, n: nat)
    requires |pixels| == 4 * n
    ensures Alpha(pixels, n) == Ok(Plane(3, pixels))
  {
    assert Alpha(pixels, n).value == Plane(3, pixels);
  }

  lemma {:induction false} AlphaOfLines(lines: seq<Scanline>, w: nat, rows: seq<seq<Byte>>)
    requires Full(lines, 4 * w) && rows == Reconstruct(4, 4 * w, lines)
    ensures Alpha(Flatten(rows), Span(|lines|, w)) == Ok(Flatten(Reconstruct(1, w, PlaneLines(3, lines))))
  {
    SpanOfFour(|lines|, w);
    ReconstructUniform(4, 4 * w, lines);
    FlattenLength(rows, 4 * w);
    PlaneOfReconstruct(3, w, lines);
    PlaneOfFlatten(3, rows, w);
    AlphaIsPlane(Flatten(rows), Span(|lines|, w));
  }

  /**
   * The alpha of the image is what the alpha bytes of the stream, and its filter types, rebuild to on
   * their own at distance 1, as if they were a gray image.
   */
  lemma {:induction false} AlphaIsGrayPlane(raw: seq<Byte>, w: nat, h: nat, pixels: seq<Byte>)
    requires Span(h, 4 * w + 1) <= |raw| && Reader.RawImage(raw, h, 4 * w, 4) == Ok(pixels)
    ensures Alpha(pixels, Span(h, w)) == Ok(Flatten(Reconstruct(1, w, PlaneLines(3, Lines(raw, h, 4 * w)))))
  {
    LinesFull(raw, h, 4 * w);
    AlphaOfLines(Lines(raw, h, 4 * w), w, Reconstruct(4, 4 * w, Lines(raw, h, 4 * w)));
  }

  // ----- what a mask shows

  /** At each of the first n pixels the quantised alpha. */
  function QuantisedAlpha(image: Image, n: nat): (seen: seq<Byte>)
    requires 4 * n <= |image.pixels|
    ensures |seen| == n
  {
    seq(n, i requires 0 <= i < n => Quantiser.Level(image.pixels[i * 4 + 3], Quantiser.LEVELS))
  }

  lemma CoverageIsQuantisedAlpha(image: Image)
    ensures var n := Span(image.height, image.width);
            Coverage(image) == if 4 * n <= |image.pixels| then Ok(QuantisedAlpha(image, n)) else Err(IndexError)
  {
    var n := Span(image.height, image.width);
    if 4 * n <= |image.pixels| {
      var coverage, seen := Coverage(image).value, QuantisedAlpha(image, n);
      assert coverage == seen;
    }
  }

  lemma {:induction false} CoverageSize(image: Image)
    requires Coverage(image).Ok?
    ensures |Coverage(image).value| == Span(image.height, image.width)
  {
    CoverageIsQuantisedAlpha(image);
  }

  lemma MaskOfShowsCoverage(image: Image, z: Zlib, crc: seq<Byte> -> nat)
    requires z.Inverse() && MaskOf(image, z, crc).Ok?
    ensures Coverage(image).Ok?
    ensures GrayPng(MaskOf(image, z, crc).value, image.width, image.height, Coverage(image).value, z)
  {
    var coverage := Coverage(image).value;
    CoverageSize(image);
    WholeFileRoundTrip(image.width, image.height, coverage, z, crc);
    assert coverage[..Span(image.height, image.width)] == coverage;
  }

  /**
   * The mask is a gray PNG of the source's size, and decoding it gives at every pixel the quantised
   * alpha of the same source pixel.
   */
  lemma {:induction false} MaskShowsAlpha(data: seq<Byte>, image: Image, z: Zlib, crc: seq<Byte> -> nat)
    requires z.Inverse() && ReadImage(data, z) == Ok(image) && Mask(data, z, crc).Ok?
    ensures var n := Span(image.height, image.width);
            && 4 * n <= |image.pixels|
            && GrayPng(Mask(data, z, crc).value, image.width, image.height, QuantisedAlpha(image, n), z)
  {
    MaskOfShowsCoverage(image, z, crc);
    CoverageIsQuantisedAlpha(image);
  }

  // ----- when a mask is made

  lemma {:induction false} PixelsAtMost(raw: seq<Byte>, w: nat, h: nat)
    requires Reader.Readable(raw, h, 4 * w, 4)
    ensures |Flatten(Reader.RawRows(raw, h, 4 * w, 4))| <= 4 * Span(h, w)
  {
    SpanOfFour(h, w);
    Reader.FullSizeExactly(raw, h, 4 * w, 4, Flatten(Reader.RawRows(raw, h, 4 * w, 4)));
  }

  lemma {:induction false} NeverTooLarge(data: seq<Byte>, image: Image, z: Zlib)
    requires ReadImage(data, z) == Ok(image)
    ensures image.width < WORD && image.height < WORD
    ensures |image.pixels| <= 4 * Span(image.height, image.width)
  {
    ReaderAcceptsExactly(data, z);
    var raw := z.decompress(IdatBytes(ParseFrom(data, 8).chunks)).value;
    PixelsAtMost(raw, image.width, image.height);
  }

  /**
   * A mask is made exactly when the source is read with all its pixels and the compressed mask fits one
   * chunk; nothing else can stop the script. Missing pixels are an IndexError, a mask too long a StructError.
   */
  lemma {:induction false} MaskMadeExactly(data: seq<Byte>, image: Image, z: Zlib, crc: seq<Byte> -> nat)
    requires ReadImage(data, z) == Ok(image)
    ensures var w, h := image.width, image.height;
            Mask(data, z, crc).Ok? <==>
            && |image.pixels| == 4 * Span(h, w)
            && var rows := Cut(QuantisedAlpha(image, Span(h, w)), h, w);
            |z.compress(Serialise(Writer.GreedyLines(rows, w)))| < WORD
    ensures Mask(data, z, crc).Err? ==>
            Mask(data, z, crc).error
            == if |image.pixels| == 4 * Span(image.height, image.width) then StructError else IndexError
  {
    NeverTooLarge(data, image, z);
    CoverageIsQuantisedAlpha(image);
  }

  // ----- masks determine coverage

  lemma {:induction false} GrayPngUnique(file: seq<Byte>, w: nat, h: nat, gray: seq<Byte>,
                                         v: nat, g: nat, other: seq<Byte>, z: Zlib)
    requires GrayPng(file, w, h, gray, z) && GrayPng(file, v, g, other, z)
    ensures w == v && h == g && gray == other
  {
  }

  /**
   * Two images have the same mask exactly when they have the same size and the same coverage: colours
   * never matter, and different coverage is never lost.
   */
  lemma {:induction false} MaskDetermines(image: Image, other: Image, z: Zlib, crc: seq<Byte> -> nat)
    requires z.Inverse() && MaskOf(image, z, crc).Ok? && MaskOf(other, z, crc).Ok?
    ensures MaskOf(image, z, crc) == MaskOf(other, z, crc)
            <==> image.width == other.width && image.height == other.height && Coverage(image) == Coverage(other)
  {
    MaskOfShowsCoverage(image, z, crc);
    MaskOfShowsCoverage(other, z, crc);
    if MaskOf(image, z, crc) == MaskOf(other, z, crc) {
      GrayPngUnique(MaskOf(image, z, crc).value, image.width, image.height, Coverage(image).value,
                    other.width, other.height, Coverage(other).value, z);
    }
  }

  // ----- twice through the script

  lemma {:induction false} CoverageIsFixed(source: Image, image: Image, n: nat)
    requires Coverage(source).Ok?
    requires n == Span(image.height, image.width) && Alpha(image.pixels, n) == Coverage(source)
    ensures Coverage(image) == Coverage(source)
  {
    var alpha := Alpha(source.pixels, Span(source.height, source.width)).value;
    Quantiser.QuantiseIdempotent(alpha, Quantiser.LEVELS);
  }

  /**
   * An image whose alpha is what a mask decodes to gives that very mask again, byte for byte, whatever
   * its colours.
   */
  lemma {:induction false} MaskIsStable(source: Image, image: Image, gray: seq<Byte>, z: Zlib, crc: seq<Byte> -> nat)
    requires z.Inverse() && MaskOf(source, z, crc).Ok?
    requires GrayPng(MaskOf(source, z, crc).value, image.width, image.height, gray, z)
    requires Alpha(image.pixels, Span(image.height, image.width)) == Ok(gray)
    ensures MaskOf(image, z, crc) == MaskOf(source, z, crc)
  {
    MaskOfShowsCoverage(source, z, crc);
    GrayPngUnique(MaskOf(source, z, crc).value, source.width, source.height, Coverage(source).value,
                  image.width, image.height, gray, z);
    CoverageIsFixed(source, image, Span(image.height, image.width));
  }

  /** The image of this size whose byte planes these are. */
  function ImageOfPlanes(planes: seq<seq<Byte>>, n: nat, width: nat, height: nat): Image
    requires |planes| == 4 && Uniform(planes, n)
  {
    Image(width, height, Interleave(planes, n))
  }

  lemma AlphaOfPlanes(planes: seq<seq<Byte>>, n: nat)
    requires |planes| == 4 && Uniform(planes, n)
    ensures Alpha(Interleave(planes, n), n) == Ok(planes[3])
  {
    var alpha := Alpha(Interleave(planes, n), n).value;
    forall i | 0 <= i < n
      ensures alpha[i] == planes[3][i]
    {
      assert (i * 4 + 3) % 4 == 3 && (i * 4 + 3) / 4 == i;
    }
    assert alpha == planes[3];
  }

  lemma {:induction false} PlanesFileReads(again: seq<Byte>, planes: seq<seq<Byte>>, n: nat, width: nat, height: nat,
                                           z: Zlib)
    requires n == Span(height, width) && |planes| == 4 && Uniform(planes, n)
    requires Encodes(again, ImageOfPlanes(planes, n, width, height), z)
    ensures ReadImage(again, z) == Ok(ImageOfPlanes(planes, n, width, height))
  {
    var image := ImageOfPlanes(planes, n, width, height);
    SpanOfFour(height, width);
    assert |image.pixels| == Span(image.height, 4 * image.width);
    ReaderRecoversImage(again, image, z);
  }

  /**
   * Through the script twice: any file that carries an image with the decoded mask as its alpha, with any
   * three colour planes, any filter types and any chunks, has the same mask file.
   */
  lemma {:induction false} TwiceIsOnce(data: seq<Byte>, again: seq<Byte>, width: nat, height: nat, n: nat,
                                       planes: seq<seq<Byte>>, z: Zlib, crc: seq<Byte> -> nat)
    requires n == Span(height, width) && |planes| == 4 && Uniform(planes, n)
    requires z.Inverse() && Mask(data, z, crc).Ok?
    requires GrayPng(Mask(data, z, crc).value, width, height, planes[3], z)
    requires Encodes(again, ImageOfPlanes(planes, n, width, height), z)
    ensures Mask(again, z, crc) == Mask(data, z, crc)
  {
    PlanesFileReads(again, planes, n, width, height, z);
    AlphaOfPlanes(planes, n);
    MaskIsStable(ReadImage(data, z).value, ImageOfPlanes(planes, n, width, height), planes[3], z, crc);
  }
}
