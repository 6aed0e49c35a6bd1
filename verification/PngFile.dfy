/** Whole files: what read_rgba gathers from the chunks of one, and what write_gray puts into another. */
module PngFile {
  import opened Bytes
  import opened Raster
  import opened Filters
  import opened Chunks
  import Reader
  import Writer

  const SIGNATURE: seq<Byte> := [0x89, 0x50, 0x4E, 0x47, 0x0D, 0x0A, 0x1A, 0x0A]
  const IHDR: seq<Byte> := [73, 72, 68, 82]
  const IDAT: seq<Byte> := [73, 68, 65, 84]
  const IEND: seq<Byte> := [73, 69, 78, 68]

  /** The compression library: any pair of functions; `Inverse` is all that is ever asked of it. */
  datatype Zlib = Zlib(compress: seq<Byte> -> seq<Byte>, decompress: seq<Byte> -> Option<seq<Byte>>) {
    ghost predicate Inverse() {
      forall raw: seq<Byte> :: decompress(compress(raw)) == Some(raw)
    }
  }

  datatype Header = Header(width: nat, height: nat, depth: Byte, ctype: Byte,
                           compression: Byte, filter: Byte, interlace: Byte)

  datatype Gathered = Gathered(header: Option<Header>, idat: seq<Byte>)

  datatype Image = Image(width: nat, height: nat, pixels: seq<Byte>)

  // ----- headers

  /** The header body of an 8-bit image without interlacing. */
  function PackHeader(width: nat, height: nat, ctype: Byte): (body: seq<Byte>)
    requires width < WORD && height < WORD
    ensures |body| == 13
  {
    Be32(width) + Be32(height) + [8, ctype, 0, 0, 0]
  }

  /** The fields of a header body, which has thirteen bytes, no more and no fewer. */
  function UnpackHeader(body: seq<Byte>): Option<Header> {
    if |body| != 13 then None else
    Some(Header(FromBe32(body[0..4]), FromBe32(body[4..8]), body[8], body[9], body[10], body[11], body[12]))
  }

  lemma PackedFields(width: nat, height: nat, ctype: Byte)
    requires width < WORD && height < WORD
    ensures var body := PackHeader(width, height, ctype);
            && FromBe32(body[0..4]) == width && FromBe32(body[4..8]) == height
            && body[8..13] == [8, ctype, 0, 0, 0]
  {
    var body := PackHeader(width, height, ctype);
    assert body[0..4] == Be32(width) && body[4..8] == Be32(height);
    Be32RoundTrip(width, body[0..4]);
    Be32RoundTrip(height, body[4..8]);
  }

  lemma HeaderRoundTrip(width: nat, height: nat, ctype: Byte)
    requires width < WORD && height < WORD
    ensures UnpackHeader(PackHeader(width, height, ctype)) == Some(Header(width, height, 8, ctype, 0, 0, 0))
  {
    PackedFields(width, height, ctype);
  }

  // ----- gathering the chunks

  /** One turn of the reader's loop over the chunks. */
  function Absorb(g: Gathered, c: Chunk): Result<Gathered> {
    if c.kind == IHDR then
      match UnpackHeader(c.body)
      case None => Err(StructError)
      case Some(header) =>
        if (header.depth, header.ctype, header.interlace) == (8, 6, 0)
        then Ok(g.(header := Some(header)))
        else Err(BadHeader)
    else if c.kind == IDAT then Ok(g.(idat := g.idat + c.body))
    else Ok(g)
  }

  function Gather(cs: seq<Chunk>): Result<Gathered> {
    if cs == [] then Ok(Gathered(None, [])) else
    match Gather(cs[..|cs| - 1])
    case Err(e) => Err(e)
    case Ok(g) => Absorb(g, cs[|cs| - 1])
  }

  function ImageOf(header: Option<Header>, raw: seq<Byte>): Result<Image> {
    match header
    case None => Err(TypeError)
    case Some(h) =>
      match Reader.RawImage(raw, h.height, 4 * h.width, 4)
      case Err(e) => Err(e)
      case Ok(pixels) => Ok(Image(h.width, h.height, pixels))
  }

  /** What read_rgba makes of a file's bytes. */
  function ReadImage(data: seq<Byte>, z: Zlib): Result<Image> {
    if Slice(data, 0, 8) != SIGNATURE then Err(NotPng) else
    var parsed := ParseFrom(data, 8);
    match Gather(parsed.chunks)
    case Err(e) => Err(e)
    case Ok(g) =>
      if parsed.end < |data| then Err(StructError) else
      match z.decompress(g.idat)
      case None => Err(ZlibError)
      case Some(raw) => ImageOf(g.header, raw)
  }

  lemma {:induction false} GatherNext(cs: seq<Chunk>, k: nat)
    requires k < |cs| && Gather(cs[..k]).Ok?
    ensures Gather(cs[..k + 1]) == Absorb(Gather(cs[..k]).value, cs[k])
  {
    TakeTake(cs, k + 1, k);
  }

  lemma {:induction false} GatherFails(cs: seq<Chunk>, k: nat)
    requires k <= |cs| && Gather(cs[..k]).Err?
    ensures Gather(cs) == Gather(cs[..k])
  {
    if k == |cs| {
      assert cs[..k] == cs;
    } else {
      TakeTake(cs, |cs| - 1, k);
      GatherFails(cs[..|cs| - 1], k);
    }
  }

  method ReadRgba(data: seq<Byte>, z: Zlib) returns (r: Result<Image>)
    ensures r == ReadImage(data, z)
  {
    if Slice(data, 0, 8) != SIGNATURE {
      return Err(NotPng);
    }
    var idat: seq<Byte> := [];
    var header: Option<Header> := None;
    var parsed := ParseChunks(data);
    for k := 0 to |parsed.chunks|
      invariant Gather(parsed.chunks[..k]) == Ok(Gathered(header, idat))
    {
      var c := parsed.chunks[k];
      GatherNext(parsed.chunks, k);
      if c.kind == IHDR {
        header := UnpackHeader(c.body);
        if header.None? {
          GatherFails(parsed.chunks, k + 1);
          return Err(StructError);
        }
        if (header.value.depth, header.value.ctype, header.value.interlace) != (8, 6, 0) {
          GatherFails(parsed.chunks, k + 1);
          return Err(BadHeader);
        }
      } else if c.kind == IDAT {
        idat := idat + c.body;
      }
    }
    assert parsed.chunks[..|parsed.chunks|] == parsed.chunks;
    if parsed.end < |data| {
      return Err(StructError);
    }
    var raw := z.decompress(idat);
    if raw.None? {
      return Err(ZlibError);
    }
    if header.None? {
      return Err(TypeError);
    }
    var width, height := header.value.width, header.value.height;
    var out := Reader.ReadRaw(raw.value, height, 4 * width, 4);
    return if out.Err? then Err(out.error) else Ok(Image(width, height, out.value));
  }

  // ----- what matters among the chunks

  function Headers(cs: seq<Chunk>): seq<Chunk> {
    if cs == [] then [] else
    var c := cs[|cs| - 1];
    if c.kind == IHDR then Headers(cs[..|cs| - 1]) + [c] else Headers(cs[..|cs| - 1])
  }

  function IdatBytes(cs: seq<Chunk>): seq<Byte> {
    if cs == [] then [] else
    var c := cs[|cs| - 1];
    if c.kind == IDAT then IdatBytes(cs[..|cs| - 1]) + c.body else IdatBytes(cs[..|cs| - 1])
  }

  /** A header body for an 8-bit RGBA image without interlacing, byte by byte (section 4.1.1 of RFC 2083). */
  ghost predicate PlainRgba(body: seq<Byte>) {
    |body| == 13 && body[8] == 8 && body[9] == 6 && body[12] == 0
  }

  ghost predicate AllPlain(cs: seq<Chunk>) {
    forall i :: 0 <= i < |cs| && cs[i].kind == IHDR ==> PlainRgba(cs[i].body)
  }

  /** Header chunk k is the first that is not for such an image. */
  ghost predicate FirstBad(cs: seq<Chunk>, k: nat) {
    && k < |cs| && cs[k].kind == IHDR && !PlainRgba(cs[k].body)
    && forall i :: 0 <= i < k && cs[i].kind == IHDR ==> PlainRgba(cs[i].body)
  }

  /** Header chunk k is the last, and its first eight bytes are this width and height. */
  ghost predicate Sized(cs: seq<Chunk>, k: nat, width: nat, height: nat) {
    && k < |cs| && cs[k].kind == IHDR && |cs[k].body| == 13
    && (forall i :: k < i < |cs| ==> cs[i].kind != IHDR)
    && FromBe32(cs[k].body[0..4]) == width && FromBe32(cs[k].body[4..8]) == height
  }

  /** The header in force at the end: that of the last IHDR chunk. */
  function LastHeader(cs: seq<Chunk>): Option<Header> {
    if Headers(cs) == [] then None else UnpackHeader(Headers(cs)[|Headers(cs)| - 1].body)
  }

  lemma IhdrIsNotIdat()
    ensures IHDR != IDAT
  {
    assert IHDR[1] != IDAT[1];
  }

  lemma {:induction false} Snoc(cs: seq<Chunk>, c: Chunk)
    ensures Headers(cs + [c]) == if c.kind == IHDR then Headers(cs) + [c] else Headers(cs)
    ensures IdatBytes(cs + [c]) == if c.kind == IDAT then IdatBytes(cs) + c.body else IdatBytes(cs)
    ensures Gather(cs + [c]) == match Gather(cs) case Err(e) => Err(e) case Ok(g) => Absorb(g, c)
  {
    assert (cs + [c])[..|cs|] == cs;
  }

  lemma {:induction false} Joined(cs: seq<Chunk>, ds: seq<Chunk>)
    ensures Headers(cs + ds) == Headers(cs) + Headers(ds)
    ensures IdatBytes(cs + ds) == IdatBytes(cs) + IdatBytes(ds)
  {
    if ds == [] {
      assert cs + ds == cs;
    } else {
      var init, d := ds[..|ds| - 1], ds[|ds| - 1];
      Joined(cs, init);
      InitLast(ds);
      Associate(cs, init, [d]);
      Snoc(init, d);
      Snoc(cs + init, d);
      Associate(Headers(cs), Headers(init), [d]);
      Associate(IdatBytes(cs), IdatBytes(init), d.body);
    }
  }

  lemma {:induction false} NoHeaders(cs: seq<Chunk>)
    requires forall i :: 0 <= i < |cs| ==> cs[i].kind != IHDR
    ensures Headers(cs) == []
  {
    if cs == [] {
    } else {
      NoHeaders(cs[..|cs| - 1]);
    }
  }

  /** Only the header chunks and the joined IDAT bodies reach the result. */
  lemma {:induction false} GatherSplits(cs: seq<Chunk>)
    ensures Gather(cs) == match Gather(Headers(cs))
                          case Err(e) => Err(e)
                          case Ok(g) => Ok(Gathered(g.header, IdatBytes(cs)))
  {
    if cs == [] {
    } else {
      var init, c := cs[..|cs| - 1], cs[|cs| - 1];
      GatherSplits(init);
      IhdrIsNotIdat();
      InitLast(cs);
      Snoc(init, c);
      if c.kind == IHDR {
        Snoc(Headers(init), c);
      }
    }
  }

  lemma {:induction false} GatherOutcome(cs: seq<Chunk>)
    ensures Gather(cs).Ok? <==> AllPlain(cs)
    ensures Gather(cs).Ok? ==> Gather(cs).value == Gathered(LastHeader(cs), IdatBytes(cs))
  {
    if cs == [] {
    } else {
      var init, c := cs[..|cs| - 1], cs[|cs| - 1];
      GatherOutcome(init);
      IhdrIsNotIdat();
      assert forall i :: 0 <= i < |init| ==> init[i] == cs[i];
      if AllPlain(init) && (c.kind == IHDR ==> PlainRgba(c.body)) {
        assert AllPlain(cs);
      }
    }
  }

  lemma {:induction false} LastSized(cs: seq<Chunk>) returns (k: nat)
    requires AllPlain(cs) && LastHeader(cs).Some?
    ensures Sized(cs, k, LastHeader(cs).value.width, LastHeader(cs).value.height)
  {
    var m := |cs| - 1;
    if cs[m].kind == IHDR {
      k := m;
    } else {
      assert forall i :: 0 <= i < m ==> cs[..m][i] == cs[i];
      k := LastSized(cs[..m]);
    }
  }

  lemma {:induction false} SizedIsLast(cs: seq<Chunk>, k: nat, width: nat, height: nat)
    requires Sized(cs, k, width, height)
    ensures LastHeader(cs).Some? && LastHeader(cs).value.width == width && LastHeader(cs).value.height == height
  {
    var m := |cs| - 1;
    if k == m {
    } else {
      assert forall i :: 0 <= i < m ==> cs[..m][i] == cs[i];
      SizedIsLast(cs[..m], k, width, height);
    }
  }

  lemma {:induction false} NoIhdr(cs: seq<Chunk>)
    requires AllPlain(cs)
    ensures LastHeader(cs) == None <==> forall i :: 0 <= i < |cs| ==> cs[i].kind != IHDR
  {
    if cs == [] {
    } else {
      var m := |cs| - 1;
      assert forall i :: 0 <= i < m ==> cs[..m][i] == cs[i];
      NoIhdr(cs[..m]);
      if cs[m].kind != IHDR && LastHeader(cs) == None {
        assert forall i :: 0 <= i < m ==> cs[i].kind == cs[..m][i].kind;
      }
    }
  }

  lemma FindBad(cs: seq<Chunk>) returns (k: nat)
    requires !AllPlain(cs)
    ensures FirstBad(cs, k)
  {
    var m := |cs| - 1;
    if AllPlain(cs[..m]) {
      k := m;
      assert forall i :: 0 <= i < m ==> cs[..m][i] == cs[i];
    } else {
      k := FindBad(cs[..m]);
    }
  }

  // ----- what the reader accepts, and returns

  lemma BehindSignature(data: seq<Byte>)
    requires |data| >= 8
    ensures From(data, 8) == data[8..]
  {
  }

  /** The loop over the chunks breaks down exactly when one to three bytes follow the last whole chunk. */
  lemma ParserBreaks(data: seq<Byte>)
    requires |data| >= 8
    ensures ParseFrom(data, 8).end < |data| <==> EndsStray(data[8..])
  {
    BehindSignature(data);
    ParserStops(data[8..]);
  }

  lemma {:induction false} ReadByHeader(data: seq<Byte>, z: Zlib)
    ensures var cs := ParseFrom(data, 8).chunks;
            var raw, header := z.decompress(IdatBytes(cs)), LastHeader(cs);
            && (Gather(cs).Ok? <==> AllPlain(cs))
            && ReadImage(data, z)
            == if |data| < 8 || data[..8] != SIGNATURE then Err(NotPng)
               else if Gather(cs).Err? then Err(Gather(cs).error)
               else if EndsStray(data[8..]) then Err(StructError)
               else if raw.None? then Err(ZlibError)
               else ImageOf(header, raw.value)
  {
    GatherOutcome(ParseFrom(data, 8).chunks);
    if |data| >= 8 {
      assert Slice(data, 0, 8) == data[..8];
      ParserBreaks(data);
    }
  }

  /**
   * Exactly which image the reader returns, and when: the signature is right, no stray bytes follow the last
   * chunk, every header chunk is for an 8-bit RGBA image without interlacing, the joined IDAT bodies
   * decompress, and the image has the size that the last header gives and the rows of the stream at that size.
   */
  lemma {:induction false} ReaderReturnsExactly(data: seq<Byte>, image: Image, z: Zlib)
    ensures var cs := ParseFrom(data, 8).chunks;
            var raw := z.decompress(IdatBytes(cs));
            ReadImage(data, z) == Ok(image) <==>
            && |data| >= 8 && data[..8] == SIGNATURE
            && !EndsStray(data[8..])
            && AllPlain(cs)
            && raw.Some?
            && (exists k :: Sized(cs, k, image.width, image.height))
            && Reader.RawImage(raw.value, image.height, 4 * image.width, 4) == Ok(image.pixels)
  {
    var cs := ParseFrom(data, 8).chunks;
    ReadByHeader(data, z);
    if AllPlain(cs) && LastHeader(cs).Some? {
      var k := LastSized(cs);
    }
    forall k | Sized(cs, k, image.width, image.height)
      ensures LastHeader(cs).Some?
      ensures LastHeader(cs).value.width == image.width && LastHeader(cs).value.height == image.height
    {
      SizedIsLast(cs, k, image.width, image.height);
    }
  }

  /** When the reader returns an image at all: the stream need not be complete, only readable at that size. */
  lemma {:induction false} ReaderAcceptsExactly(data: seq<Byte>, z: Zlib)
    ensures var cs := ParseFrom(data, 8).chunks;
            var raw := z.decompress(IdatBytes(cs));
            && (ReadImage(data, z).Ok? <==>
                && |data| >= 8 && data[..8] == SIGNATURE
                && !EndsStray(data[8..])
                && AllPlain(cs)
                && raw.Some?
                && exists k: nat, w: nat, h: nat :: Sized(cs, k, w, h) && Reader.Readable(raw.value, h, 4 * w, 4))
            && (ReadImage(data, z).Ok? ==>
                  var image := ReadImage(data, z).value;
                  && image.width < WORD && image.height < WORD
                  && Reader.Readable(raw.value, image.height, 4 * image.width, 4)
                  && image.pixels == Flatten(Reader.RawRows(raw.value, image.height, 4 * image.width, 4)))
  {
    var cs := ParseFrom(data, 8).chunks;
    ReadByHeader(data, z);
    if ReadImage(data, z).Ok? {
      var image := ReadImage(data, z).value;
      ReaderReturnsExactly(data, image, z);
      var k :| Sized(cs, k, image.width, image.height);
    }
    forall k: nat, w: nat, h: nat | Sized(cs, k, w, h)
      ensures LastHeader(cs).Some? && LastHeader(cs).value.width == w && LastHeader(cs).value.height == h
    {
      SizedIsLast(cs, k, w, h);
    }
  }

  /** The first header chunk for another kind of image ends the reader, by its length or by its fields. */
  lemma {:induction false} FirstBadDecides(data: seq<Byte>, k: nat, z: Zlib)
    requires |data| >= 8 && data[..8] == SIGNATURE && FirstBad(ParseFrom(data, 8).chunks, k)
    ensures var body := ParseFrom(data, 8).chunks[k].body;
            ReadImage(data, z) == Err(if |body| != 13 then StructError else BadHeader)
  {
    var cs := ParseFrom(data, 8).chunks;
    GatherOutcome(cs[..k]);
    GatherNext(cs, k);
    GatherFails(cs, k + 1);
    ReadByHeader(data, z);
  }

  /** Which error the reader ends in: the order of these conditions is the order in which they take effect. */
  lemma {:induction false} ReaderErrors(data: seq<Byte>, z: Zlib)
    requires ReadImage(data, z).Err?
    ensures var cs, e := ParseFrom(data, 8).chunks, ReadImage(data, z).error;
            if |data| < 8 || data[..8] != SIGNATURE then e == NotPng
            else if !AllPlain(cs) then
              exists k: nat :: FirstBad(cs, k) && e == if |cs[k].body| != 13 then StructError else BadHeader
            else if EndsStray(data[8..]) then e == StructError
            else if z.decompress(IdatBytes(cs)).None? then e == ZlibError
            else if forall i :: 0 <= i < |cs| ==> cs[i].kind != IHDR then e == TypeError
            else e == IndexError
  {
    var cs := ParseFrom(data, 8).chunks;
    ReadByHeader(data, z);
    if |data| >= 8 && data[..8] == SIGNATURE {
      if AllPlain(cs) {
        NoIhdr(cs);
      } else {
        var k := FindBad(cs);
        FirstBadDecides(data, k, z);
      }
    }
  }

  /** The stream begins with the rows of the image, each filtered under some type. */
  ghost predicate Carries(raw: seq<Byte>, image: Image) {
    var n := 4 * image.width;
    exists fs: seq<Byte> ::
      |fs| == image.height && Serialise(FilterImage(fs, 4, n, Cut(image.pixels, image.height, n))) <= raw
  }

  /** The file carries this image, as a PNG encoder may write it. */
  ghost predicate Encodes(data: seq<Byte>, image: Image, z: Zlib) {
    && |data| >= 8 && data[..8] == SIGNATURE
    && !EndsStray(data[8..])
    && var cs := ParseFrom(data, 8).chunks;
    && AllPlain(cs)
    && (exists k :: Sized(cs, k, image.width, image.height))
    && z.decompress(IdatBytes(cs)).Some?
    && Carries(z.decompress(IdatBytes(cs)).value, image)
  }

  lemma {:induction false} CarriesExactly(raw: seq<Byte>, image: Image)
    requires |image.pixels| == Span(image.height, 4 * image.width)
    ensures Carries(raw, image) <==> Reader.RawImage(raw, image.height, 4 * image.width, 4) == Ok(image.pixels)
  {
    var h, n := image.height, 4 * image.width;
    CutUniform(image.pixels, h, n);
    FlattenCut(image.pixels, h, n);
    assert image.pixels[..Span(h, n)] == image.pixels;
    Reader.StreamEncodesExactly(raw, Cut(image.pixels, h, n), n, 4);
  }

  /**
   * The reader returns a full-size image exactly for the files that carry it: with any filter type on
   * each row, any compressed form, any cutting into IDAT chunks, any other chunks, any check bytes.
   */
  lemma {:induction false} ReaderRecoversImage(data: seq<Byte>, image: Image, z: Zlib)
    requires |image.pixels| == Span(image.height, 4 * image.width)
    ensures ReadImage(data, z) == Ok(image) <==> Encodes(data, image, z)
  {
    var cs := ParseFrom(data, 8).chunks;
    ReaderReturnsExactly(data, image, z);
    if z.decompress(IdatBytes(cs)).Some? {
      CarriesExactly(z.decompress(IdatBytes(cs)).value, image);
    }
  }

  // ----- what the reader does not see

  /**
   * Two files with the same first bytes, the same header chunks and the same joined IDAT bodies, that
   * break off the same way, read the same, be it an image or an error, however the IDAT chunks are cut
   * and whatever other chunks lie about (section 4.1.3 of RFC 2083).
   */
  lemma {:induction false} SplittingIsInvisible(data: seq<Byte>, other: seq<Byte>, z: Zlib)
    requires Slice(data, 0, 8) == Slice(other, 0, 8)
    requires var p, q := ParseFrom(data, 8), ParseFrom(other, 8);
             && Headers(p.chunks) == Headers(q.chunks)
             && IdatBytes(p.chunks) == IdatBytes(q.chunks)
             && (p.end < |data| <==> q.end < |other|)
    ensures ReadImage(data, z) == ReadImage(other, z)
  {
    GatherSplits(ParseFrom(data, 8).chunks);
    GatherSplits(ParseFrom(other, 8).chunks);
  }

  lemma {:induction false} ParseTailed(start: seq<Byte>, cs: seq<Chunk>, checks: seq<seq<Byte>>, tail: seq<Byte>,
                                       data: seq<Byte>)
    requires |start| == 8 && AllPrintable(cs) && |checks| == |cs| && FourEach(checks)
    requires data == start + (Frames(cs, checks) + tail)
    ensures Slice(data, 0, 8) == start
    ensures ParseFrom(data, 8).chunks == cs + Parse(tail).chunks
    ensures ParseFrom(data, 8).end < |data| <==> Parse(tail).end < |tail|
  {
    ParseFrames(cs, checks, tail);
    FromTail(start, Frames(cs, checks) + tail);
  }

  lemma {:induction false} SingleIdat(body: seq<Byte>)
    ensures Headers([Chunk(IDAT, body)]) == [] && IdatBytes([Chunk(IDAT, body)]) == body
  {
    IhdrIsNotIdat();
    Snoc([], Chunk(IDAT, body));
    assert [] + [Chunk(IDAT, body)] == [Chunk(IDAT, body)] && [] + body == body;
  }

  lemma {:induction false} SamePicks(a: seq<Chunk>, whole: seq<Chunk>, parts: seq<Chunk>, b: seq<Chunk>)
    requires Headers(whole) == Headers(parts) && IdatBytes(whole) == IdatBytes(parts)
    ensures Headers(a + whole + b) == Headers(a + parts + b)
    ensures IdatBytes(a + whole + b) == IdatBytes(a + parts + b)
  {
    Joined(a, whole);
    Joined(a + whole, b);
    Joined(a, parts);
    Joined(a + parts, b);
  }

  /**
   * An IDAT chunk may be cut into any number of them, with any chunks but IHDR in between: behind any
   * chunks, and in front of any bytes at all, what is read stays the same.
   */
  lemma {:induction false} CutIdat(start: seq<Byte>, a: seq<Chunk>, body: seq<Byte>, parts: seq<Chunk>,
                                   checks: seq<seq<Byte>>, others: seq<seq<Byte>>, tail: seq<Byte>,
                                   data: seq<Byte>, other: seq<Byte>, z: Zlib)
    requires |start| == 8
    requires forall i :: 0 <= i < |parts| ==> parts[i].kind != IHDR
    requires IdatBytes(parts) == body
    requires AllPrintable(a + [Chunk(IDAT, body)]) && |checks| == |a| + 1 && FourEach(checks)
    requires AllPrintable(a + parts) && |others| == |a + parts| && FourEach(others)
    requires data == start + (Frames(a + [Chunk(IDAT, body)], checks) + tail)
    requires other == start + (Frames(a + parts, others) + tail)
    ensures ReadImage(data, z) == ReadImage(other, z)
  {
    var whole := [Chunk(IDAT, body)];
    SingleIdat(body);
    NoHeaders(parts);
    SamePicks(a, whole, parts, Parse(tail).chunks);
    ParseTailed(start, a + whole, checks, tail, data);
    ParseTailed(start, a + parts, others, tail, other);
    SplittingIsInvisible(data, other, z);
  }

  // ----- files that lose their end

  ghost predicate PngOf(data: seq<Byte>, cs: seq<Chunk>) {
    |data| >= 8 && data[..8] == SIGNATURE && Framed(data[8..], cs)
  }

  lemma PngParses(data: seq<Byte>, cs: seq<Chunk>)
    requires PngOf(data, cs)
    ensures Slice(data, 0, 8) == SIGNATURE && ParseFrom(data, 8) == Parsed(cs, |data|)
    ensures !EndsStray(data[8..])
  {
    BehindSignature(data);
    WholeParses(data[8..], cs);
    ParserStops(data[8..]);
  }

  lemma {:induction false} FramesSnoc(cs: seq<Chunk>, checks: seq<seq<Byte>>, c: Chunk, check: seq<Byte>)
    requires AllPrintable(cs) && |checks| == |cs| && Printable(c)
    ensures AllPrintable(cs + [c])
    ensures Frames(cs + [c], checks + [check]) == Frames(cs, checks) + Frame(c, check)
    decreases |cs|
  {
    if cs == [] {
      assert Frames([c][1..], [check][1..]) == [];
      assert cs + [c] == [c] && checks + [check] == [check];
    } else {
      assert (cs + [c])[1..] == cs[1..] + [c] && (checks + [check])[1..] == checks[1..] + [check];
      FramesSnoc(cs[1..], checks[1..], c, check);
      Associate(Frame(cs[0], checks[0]), Frames(cs[1..], checks[1..]), Frame(c, check));
    }
  }

  lemma KindOfCutEnd(kind: seq<Byte>)
    requires kind <= IEND
    ensures kind != IHDR && kind != IDAT
  {
    assert IEND[1] != IHDR[1] && IEND[1] != IDAT[1];
  }

  /** What is left of an IEND chunk that has lost some bytes, but not its length field, is no header and no data. */
  lemma CutEnd(check: seq<Byte>, left: nat)
    requires |check| == 4 && 4 <= left < 12
    ensures var rest := Frame(Chunk(IEND, []), check)[..left];
            CutFrame(rest) && FirstOf(rest).kind != IHDR && FirstOf(rest).kind != IDAT
  {
    var c := Chunk(IEND, []);
    var frame := Frame(c, check);
    var rest := frame[..left];
    FrameAt(c, check, []);
    assert frame + [] == frame;
    assert Slice(frame, 4, 8) == IEND;
    assert Slice(rest, 4, 8) <= Slice(frame, 4, 8);
    KindOfCutEnd(Slice(rest, 4, 8));
  }

  lemma {:induction false} PicksIgnore(cs: seq<Chunk>, c: Chunk)
    requires c.kind != IHDR && c.kind != IDAT
    ensures Headers(cs + [c]) == Headers(cs) && IdatBytes(cs + [c]) == IdatBytes(cs)
  {
    Snoc(cs, c);
  }

  lemma IendIsOther()
    ensures IEND != IHDR && IEND != IDAT
  {
    KindOfCutEnd(IEND);
  }

  lemma {:induction false} ParseLeft(cs: seq<Chunk>, checks: seq<seq<Byte>>, check: seq<Byte>, left: nat,
                                     data: seq<Byte>)
    requires AllPrintable(cs) && |checks| == |cs| && FourEach(checks) && |check| == 4 && left <= 12
    requires data == SIGNATURE + (Frames(cs, checks) + Frame(Chunk(IEND, []), check)[..left])
    ensures var p := ParseFrom(data, 8);
            && Slice(data, 0, 8) == SIGNATURE
            && Headers(p.chunks) == Headers(cs) && IdatBytes(p.chunks) == IdatBytes(cs)
            && (p.end < |data| <==> 1 <= left <= 3)
  {
    var c := Chunk(IEND, []);
    var rest := Frame(c, check)[..left];
    ParseTailed(SIGNATURE, cs, checks, rest, data);
    IendIsOther();
    if left < 4 {
      NothingBehind(cs, 0);
    } else if left < 12 {
      CutEnd(check, left);
      ParseCutFrame(rest);
      PicksIgnore(cs, FirstOf(rest));
    } else {
      assert rest == Frame(c, check) + [] && Frames([c][1..], [check][1..]) == [];
      ParseFrame(c, check, []);
      PicksIgnore(cs, c);
    }
  }

  lemma EndFrame(data: seq<Byte>, cs: seq<Chunk>) returns (checks: seq<seq<Byte>>, check: seq<Byte>)
    requires PngOf(data, cs + [Chunk(IEND, [])])
    ensures AllPrintable(cs) && |checks| == |cs| && FourEach(checks) && |check| == 4
    ensures data == SIGNATURE + (Frames(cs, checks) + Frame(Chunk(IEND, []), check))
  {
    var c := Chunk(IEND, []);
    var all: seq<seq<Byte>> :| |all| == |cs + [c]| && FourEach(all) && data[8..] == Frames(cs + [c], all);
    checks, check := all[..|cs|], all[|cs|];
    InitLast(all);
    assert forall i :: 0 <= i < |cs| ==> cs[i] == (cs + [c])[i];
    FramesSnoc(cs, checks, c, check);
    Rejoin(data, 8);
  }

  lemma CutBack(start: seq<Byte>, mid: seq<Byte>, frame: seq<Byte>, lost: nat)
    requires lost <= |frame|
    ensures var data := start + (mid + frame);
            lost <= |data| && data[..|data| - lost] == start + (mid + frame[..|frame| - lost])
  {
  }

  /** The file that ends in an IEND chunk, short of its last bytes. */
  lemma {:induction false} ShortFile(data: seq<Byte>, cs: seq<Chunk>, lost: nat, other: seq<Byte>)
    requires PngOf(data, cs + [Chunk(IEND, [])])
    requires lost <= 12 && lost <= |data| && other == data[..|data| - lost]
    ensures var p := ParseFrom(other, 8);
            && Slice(other, 0, 8) == SIGNATURE
            && Headers(p.chunks) == Headers(cs) && IdatBytes(p.chunks) == IdatBytes(cs)
            && (p.end < |other| <==> 9 <= lost <= 11)
  {
    var checks, check := EndFrame(data, cs);
    var frame := Frame(Chunk(IEND, []), check);
    assert |frame| == 12;
    CutBack(SIGNATURE, Frames(cs, checks), frame, lost);
    ParseLeft(cs, checks, check, 12 - lost, other);
  }

  /** A file that ends in an IEND chunk and loses up to eight bytes of it, or all twelve, reads as before. */
  lemma LostEnd(data: seq<Byte>, cs: seq<Chunk>, lost: nat, other: seq<Byte>, z: Zlib)
    requires PngOf(data, cs + [Chunk(IEND, [])])
    requires (lost <= 8 || lost == 12) && lost <= |data| && other == data[..|data| - lost]
    ensures ReadImage(other, z) == ReadImage(data, z)
  {
    ShortFile(data, cs, lost, other);
    ShortFile(data, cs, 0, data);
    SplittingIsInvisible(data, other, z);
  }

  /** Left with one to three bytes of the chunk it breaks the reader, unless a chunk in front did. */
  lemma {:induction false} StrayEnd(data: seq<Byte>, cs: seq<Chunk>, lost: nat, other: seq<Byte>, z: Zlib)
    requires PngOf(data, cs + [Chunk(IEND, [])])
    requires 9 <= lost <= 11 && lost <= |data| && other == data[..|data| - lost]
    ensures ReadImage(other, z) == Err(if Gather(cs).Err? then Gather(cs).error else StructError)
  {
    ShortFile(data, cs, lost, other);
    GatherSplits(cs);
    GatherSplits(ParseFrom(other, 8).chunks);
  }

  // ----- a plain RGBA file

  /** The chunks of an RGBA file made of one IDAT. */
  function RgbaChunks(width: nat, height: nat, packed: seq<Byte>): seq<Chunk>
    requires width < WORD && height < WORD
  {
    [] + [Chunk(IHDR, PackHeader(width, height, 6))] + [Chunk(IDAT, packed)] + [Chunk(IEND, [])]
  }

  lemma {:induction false} RgbaPicks(width: nat, height: nat, packed: seq<Byte>)
    requires width < WORD && height < WORD
    ensures IdatBytes(RgbaChunks(width, height, packed)) == packed
  {
    var head, data := [] + [Chunk(IHDR, PackHeader(width, height, 6))], Chunk(IDAT, packed);
    IhdrIsNotIdat();
    IendIsOther();
    Snoc([], Chunk(IHDR, PackHeader(width, height, 6)));
    Snoc(head, data);
    Snoc(head + [data], Chunk(IEND, []));
    assert [] + packed == packed;
  }

  lemma RgbaSized(width: nat, height: nat, packed: seq<Byte>)
    requires width < WORD && height < WORD
    ensures AllPlain(RgbaChunks(width, height, packed)) && Sized(RgbaChunks(width, height, packed), 0, width, height)
  {
    var cs, body := RgbaChunks(width, height, packed), PackHeader(width, height, 6);
    IhdrIsNotIdat();
    IendIsOther();
    PackedFields(width, height, 6);
    assert body[8] == body[8..13][0] && body[9] == body[8..13][1] && body[12] == body[8..13][4];
    assert cs[0] == Chunk(IHDR, body) && cs[1].kind == IDAT && cs[2].kind == IEND;
  }

  /** A header, one IDAT with the compressed stream and an end make a file that carries the image. */
  lemma PlainFileEncodes(data: seq<Byte>, image: Image, raw: seq<Byte>, z: Zlib)
    requires z.Inverse() && image.width < WORD && image.height < WORD
    requires Carries(raw, image)
    requires PngOf(data, RgbaChunks(image.width, image.height, z.compress(raw)))
    ensures Encodes(data, image, z)
  {
    PngParses(data, RgbaChunks(image.width, image.height, z.compress(raw)));
    RgbaPicks(image.width, image.height, z.compress(raw));
    RgbaSized(image.width, image.height, z.compress(raw));
    assert z.decompress(z.compress(raw)) == Some(raw);
  }

  // ----- writing

  /** The three chunks of a gray PNG. */
  function GrayChunks(width: nat, height: nat, packed: seq<Byte>): (cs: seq<Chunk>)
    requires width < WORD && height < WORD
    ensures |cs| == 3 && (|packed| < WORD ==> AllPrintable(cs))
  {
    [Chunk(IHDR, PackHeader(width, height, 0)), Chunk(IDAT, packed), Chunk(IEND, [])]
  }

  /** The file written for the first height * width bytes of a gray image, if all sizes fit their fields. */
  function GrayFile(width: nat, height: nat, gray: seq<Byte>, z: Zlib, crc: seq<Byte> -> nat): Result<seq<Byte>> {
    match Writer.GrayStream(gray, height, width)
    case Err(e) => Err(e)
    case Ok(raw) =>
      if width >= WORD || height >= WORD || |z.compress(raw)| >= WORD then Err(StructError) else
      var cs := GrayChunks(width, height, z.compress(raw));
      Ok(SIGNATURE + Frames(cs, Checks(cs, crc)))
  }

  lemma {:induction false} ThreeFrames(cs: seq<Chunk>, checks: seq<seq<Byte>>)
    requires AllPrintable(cs) && |cs| == |checks| == 3
    ensures Frames(cs, checks) == Frame(cs[0], checks[0]) + Frame(cs[1], checks[1]) + Frame(cs[2], checks[2])
  {
    var init, first := cs[..2], checks[..2];
    assert cs == [] + [cs[0]] + [cs[1]] + [cs[2]] && checks == [] + [checks[0]] + [checks[1]] + [checks[2]];
    FramesSnoc([], [], cs[0], checks[0]);
    FramesSnoc([] + [cs[0]], [] + [checks[0]], cs[1], checks[1]);
    FramesSnoc([] + [cs[0]] + [cs[1]], [] + [checks[0]] + [checks[1]], cs[2], checks[2]);
    assert [] + Frame(cs[0], checks[0]) == Frame(cs[0], checks[0]);
  }

  method WriteGray(width: nat, height: nat, gray: seq<Byte>, z: Zlib, crc: seq<Byte> -> nat)
    returns (r: Result<seq<Byte>>)
    ensures r == GrayFile(width, height, gray, z, crc)
  {
    var raw := Writer.FilterGray(gray, height, width);
    if raw.Err? {
      return Err(raw.error);
    }
    if width >= WORD || height >= WORD {
      return Err(StructError);
    }
    var ihdr := ChunkBytes(Chunk(IHDR, PackHeader(width, height, 0)), crc);
    var idat := ChunkBytes(Chunk(IDAT, z.compress(raw.value)), crc);
    if idat.Err? {
      return Err(idat.error);
    }
    var iend := ChunkBytes(Chunk(IEND, []), crc);
    ghost var cs := GrayChunks(width, height, z.compress(raw.value));
    ThreeFrames(cs, Checks(cs, crc));
    return Ok(SIGNATURE + (ihdr.value + idat.value + iend.value));
  }

  // ----- the written bytes, one by one

  /** The fields of a chunk that stands in the file between two offsets. */
  lemma FieldsAt(file: seq<Byte>, at: nat, c: Chunk, crc: seq<Byte> -> nat, n: nat)
    requires |c.kind| == 4 && n == |c.body| < WORD && at + 12 + n <= |file|
    requires file[at..at + 12 + n] == Frame(c, Check(c, crc))
    ensures FromBe32(file[at..at + 4]) == n
    ensures file[at + 4..at + 8] == c.kind
    ensures file[at + 8..at + 8 + n] == c.body
    ensures FromBe32(file[at + 8 + n..at + 12 + n]) == crc(file[at + 4..at + 8 + n]) % WORD
  {
    var s, end := file[at..at + 12 + n], at + 12 + n;
    ChunkFields(c, crc, s, n);
    assert s[..4] == s[0..4] && s[8 + n..] == s[8 + n..12 + n];
    PartOfPart(file, at, end, 0, 4);
    PartOfPart(file, at, end, 4, 8);
    PartOfPart(file, at, end, 8, 8 + n);
    PartOfPart(file, at, end, 4, 8 + n);
    PartOfPart(file, at, end, 8 + n, 12 + n);
  }

  lemma FourStretches(a: seq<Byte>, b: seq<Byte>, c: seq<Byte>, d: seq<Byte>, i: nat, j: nat, k: nat, l: nat,
                      file: seq<Byte>)
    requires file == a + (b + c + d)
    requires |a| == i && i + |b| == j && j + |c| == k && k + |d| == l
    ensures |file| == l && file[..i] == a && file[i..j] == b && file[j..k] == c && file[k..l] == d
  {
  }

  lemma {:induction false} FileOfFrames(width: nat, height: nat, gray: seq<Byte>, z: Zlib, crc: seq<Byte> -> nat,
                                        packed: seq<Byte>, file: seq<Byte>)
    requires GrayFile(width, height, gray, z, crc) == Ok(file)
    requires packed == z.compress(Writer.GrayStream(gray, height, width).value)
    ensures width < WORD && height < WORD && |packed| < WORD
    ensures var head, data, end := Chunk(IHDR, PackHeader(width, height, 0)), Chunk(IDAT, packed), Chunk(IEND, []);
            file == SIGNATURE + (Frame(head, Check(head, crc)) + Frame(data, Check(data, crc))
                                 + Frame(end, Check(end, crc)))
  {
    var cs := GrayChunks(width, height, packed);
    ThreeFrames(cs, Checks(cs, crc));
  }

  lemma {:induction false} ChunksInFile(width: nat, height: nat, gray: seq<Byte>, z: Zlib, crc: seq<Byte> -> nat,
                                        packed: seq<Byte>, file: seq<Byte>, n: nat)
    requires GrayFile(width, height, gray, z, crc) == Ok(file)
    requires packed == z.compress(Writer.GrayStream(gray, height, width).value) && n == |packed|
    ensures width < WORD && height < WORD && n < WORD && |file| == 57 + n
    ensures var head, data, end := Chunk(IHDR, PackHeader(width, height, 0)), Chunk(IDAT, packed), Chunk(IEND, []);
            && file[..8] == SIGNATURE
            && file[8..33] == Frame(head, Check(head, crc))
            && file[33..45 + n] == Frame(data, Check(data, crc))
            && file[45 + n..57 + n] == Frame(end, Check(end, crc))
  {
    var head, data, end := Chunk(IHDR, PackHeader(width, height, 0)), Chunk(IDAT, packed), Chunk(IEND, []);
    FileOfFrames(width, height, gray, z, crc, packed, file);
    FourStretches(SIGNATURE, Frame(head, Check(head, crc)), Frame(data, Check(data, crc)), Frame(end, Check(end, crc)),
                  8, 33, 45 + n, 57 + n, file);
  }

  lemma HeaderFields(file: seq<Byte>, width: nat, height: nat)
    requires width < WORD && height < WORD && |file| >= 29 && file[16..29] == PackHeader(width, height, 0)
    ensures FromBe32(file[16..20]) == width && FromBe32(file[20..24]) == height
    ensures file[24..29] == [8, 0, 0, 0, 0]
  {
    PartOfPart(file, 16, 29, 0, 4);
    PartOfPart(file, 16, 29, 4, 8);
    PartOfPart(file, 16, 29, 8, 13);
    PackedFields(width, height, 0);
  }

  lemma FirstSixteen(file: seq<Byte>)
    requires |file| >= 16 && file[..8] == SIGNATURE && FromBe32(file[8..12]) == 13 && file[12..16] == IHDR
    ensures file[..16] == [137, 80, 78, 71, 13, 10, 26, 10, 0, 0, 0, 13, 73, 72, 68, 82]
  {
    SmallWord(file[8..12], 13);
    JoinParts(file, 0, 8, 12);
    JoinParts(file, 0, 12, 16);
  }

  lemma EightBytes(file: seq<Byte>, at: nat)
    requires at + 8 <= |file| && FromBe32(file[at..at + 4]) == 0 && file[at + 4..at + 8] == IEND
    ensures file[at..at + 8] == [0, 0, 0, 0, 73, 69, 78, 68]
  {
    SmallWord(file[at..at + 4], 0);
    JoinParts(file, at, at + 4, at + 8);
  }

  /** The signature and a header chunk for a gray image, with the checksum of the header's kind and body. */
  ghost predicate HeadBytes(file: seq<Byte>, width: nat, height: nat, crc: seq<Byte> -> nat) {
    && |file| >= 33
    && file[..16] == [137, 80, 78, 71, 13, 10, 26, 10, 0, 0, 0, 13, 73, 72, 68, 82]
    && FromBe32(file[16..20]) == width && FromBe32(file[20..24]) == height
    && file[24..29] == [8, 0, 0, 0, 0]
    && FromBe32(file[29..33]) == crc(file[12..29]) % WORD
  }

  /** Behind them a data chunk, with the checksum of its kind and body. */
  ghost predicate DataBytes(file: seq<Byte>, packed: seq<Byte>, crc: seq<Byte> -> nat) {
    var n := |packed|;
    && |file| >= 45 + n
    && FromBe32(file[33..37]) == n
    && file[37..41] == [73, 68, 65, 84]
    && file[41..41 + n] == packed
    && FromBe32(file[41 + n..45 + n]) == crc(file[37..41 + n]) % WORD
  }

  /** From this offset on an end chunk, with the checksum of its kind, and nothing more. */
  ghost predicate EndBytes(file: seq<Byte>, at: nat, crc: seq<Byte> -> nat) {
    && |file| == at + 12
    && file[at..at + 8] == [0, 0, 0, 0, 73, 69, 78, 68]
    && FromBe32(file[at + 8..at + 12]) == crc([73, 69, 78, 68]) % WORD
  }

  lemma HeadAt(file: seq<Byte>, width: nat, height: nat, crc: seq<Byte> -> nat)
    requires width < WORD && height < WORD && |file| >= 33 && file[..8] == SIGNATURE
    requires var c := Chunk(IHDR, PackHeader(width, height, 0));
             file[8..33] == Frame(c, Check(c, crc))
    ensures HeadBytes(file, width, height, crc)
  {
    FieldsAt(file, 8, Chunk(IHDR, PackHeader(width, height, 0)), crc, 13);
    FirstSixteen(file);
    HeaderFields(file, width, height);
  }

  lemma DataAt(file: seq<Byte>, packed: seq<Byte>, crc: seq<Byte> -> nat)
    requires |packed| < WORD && |file| >= 45 + |packed|
    requires file[33..45 + |packed|] == Frame(Chunk(IDAT, packed), Check(Chunk(IDAT, packed), crc))
    ensures DataBytes(file, packed, crc)
  {
    FieldsAt(file, 33, Chunk(IDAT, packed), crc, |packed|);
  }

  lemma EndAt(file: seq<Byte>, at: nat, crc: seq<Byte> -> nat)
    requires |file| == at + 12 && file[at..at + 12] == Frame(Chunk(IEND, []), Check(Chunk(IEND, []), crc))
    ensures EndBytes(file, at, crc)
  {
    FieldsAt(file, at, Chunk(IEND, []), crc, 0);
    EightBytes(file, at);
  }

  /** A written file, byte by byte: every field stands at its offset, and every checksum covers kind and body. */
  lemma {:induction false} WrittenBytes(width: nat, height: nat, gray: seq<Byte>, z: Zlib, crc: seq<Byte> -> nat,
                                        packed: seq<Byte>, file: seq<Byte>)
    requires GrayFile(width, height, gray, z, crc) == Ok(file)
    requires packed == z.compress(Writer.GrayStream(gray, height, width).value)
    ensures HeadBytes(file, width, height, crc)
    ensures DataBytes(file, packed, crc)
    ensures EndBytes(file, 45 + |packed|, crc)
  {
    ChunksInFile(width, height, gray, z, crc, packed, file, |packed|);
    HeadAt(file, width, height, crc);
    DataAt(file, packed, crc);
    EndAt(file, 45 + |packed|, crc);
  }

  ghost predicate GrayData(raw: Option<seq<Byte>>, width: nat, height: nat, gray: seq<Byte>) {
    && raw.Some?
    && |raw.value| == Span(height, width + 1)
    && Reader.RawImage(raw.value, height, width, 1) == Ok(gray)
  }

  /** The header body of a gray 8-bit image of this size, byte by byte. */
  ghost predicate GrayHeader(body: seq<Byte>, width: nat, height: nat) {
    && |body| == 13
    && FromBe32(body[0..4]) == width && FromBe32(body[4..8]) == height
    && body[8..13] == [8, 0, 0, 0, 0]
  }

  /** A gray PNG of this size, whose IDAT holds a stream that decodes, at distance 1, to these bytes. */
  ghost predicate GrayPng(file: seq<Byte>, width: nat, height: nat, gray: seq<Byte>, z: Zlib) {
    && Slice(file, 0, 8) == SIGNATURE
    && var parsed := ParseFrom(file, 8);
    && parsed.end == |file|
    && |parsed.chunks| == 3
    && parsed.chunks[0].kind == IHDR
    && GrayHeader(parsed.chunks[0].body, width, height)
    && parsed.chunks[1].kind == IDAT
    && parsed.chunks[2] == Chunk(IEND, [])
    && GrayData(z.decompress(parsed.chunks[1].body), width, height, gray)
  }

  lemma FramesAreFramed(cs: seq<Chunk>, checks: seq<seq<Byte>>)
    requires AllPrintable(cs) && |checks| == |cs| && FourEach(checks)
    ensures Framed(Frames(cs, checks), cs)
  {
  }

  lemma {:induction false} FileParses(cs: seq<Chunk>, checks: seq<seq<Byte>>, file: seq<Byte>)
    requires AllPrintable(cs) && |checks| == |cs| && FourEach(checks)
    requires file == SIGNATURE + Frames(cs, checks)
    ensures PngOf(file, cs) && Slice(file, 0, 8) == SIGNATURE && ParseFrom(file, 8) == Parsed(cs, |file|)
  {
    assert file[..8] == SIGNATURE && file[8..] == Frames(cs, checks);
    FramesAreFramed(cs, checks);
    PngParses(file, cs);
  }

  lemma {:induction false} StreamDecodes(gray: seq<Byte>, height: nat, width: nat, raw: seq<Byte>)
    requires Writer.GrayStream(gray, height, width) == Ok(raw)
    ensures GrayData(Some(raw), width, height, gray[..Span(height, width)])
  {
    Writer.RasterRoundTrip(gray, height, width, raw);
    Reader.ReadableWhenFull(raw, height, width, 1);
  }

  /** A file is written exactly when the image is complete and its sizes fit 32 bits; it decodes to the image. */
  lemma {:induction false} WholeFileRoundTrip(width: nat, height: nat, gray: seq<Byte>, z: Zlib, crc: seq<Byte> -> nat)
    requires z.Inverse()
    ensures var r := GrayFile(width, height, gray, z, crc);
            var stream := Serialise(Writer.GreedyLines(Cut(gray, height, width), width));
            && (r.Ok? <==>
                Span(height, width) <= |gray| && width < WORD && height < WORD && |z.compress(stream)| < WORD)
            && (r.Ok? ==> GrayPng(r.value, width, height, gray[..Span(height, width)], z))
            && (r.Err? ==> r.error == if Span(height, width) <= |gray| then StructError else IndexError)
  {
    var r := GrayFile(width, height, gray, z, crc);
    if r.Ok? {
      var raw := Writer.GrayStream(gray, height, width).value;
      var cs := GrayChunks(width, height, z.compress(raw));
      StreamDecodes(gray, height, width, raw);
      PackedFields(width, height, 0);
      FileParses(cs, Checks(cs, crc), r.value);
      assert z.decompress(z.compress(raw)) == Some(raw);
    }
  }

  lemma {:induction false} GrayHeaderRefused(width: nat, height: nat, packed: seq<Byte>)
    requires width < WORD && height < WORD
    ensures Gather(GrayChunks(width, height, packed)) == Err(BadHeader)
  {
    var cs := GrayChunks(width, height, packed);
    HeaderRoundTrip(width, height, 0);
    assert Gather(cs[..0]) == Ok(Gathered(None, []));
    GatherNext(cs, 0);
    GatherFails(cs, 1);
  }

  /** The reader itself refuses every file the writer makes: it asks for RGBA. */
  lemma ReaderRefusesMask(width: nat, height: nat, gray: seq<Byte>, z: Zlib, crc: seq<Byte> -> nat)
    requires GrayFile(width, height, gray, z, crc).Ok?
    ensures ReadImage(GrayFile(width, height, gray, z, crc).value, z) == Err(BadHeader)
  {
    var packed := z.compress(Writer.GrayStream(gray, height, width).value);
    var cs := GrayChunks(width, height, packed);
    FileParses(cs, Checks(cs, crc), GrayFile(width, height, gray, z, crc).value);
    GrayHeaderRefused(width, height, packed);
  }
}
