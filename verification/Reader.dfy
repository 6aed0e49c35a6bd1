/** Undoing the filters of a raw stream in place, row by row, as read_rgba does. */
module Reader {
  import opened Bytes
  import opened Predictor
  import opened Raster
  import opened Filters

  // ----- what the loops compute

  /** A row shorter than the stride gets through a filter whose loop never reaches the missing bytes. */
  predicate Tolerates(f: Byte, bpp: nat, stride: nat) {
    !(1 <= f <= 4) || (f == 1 && stride <= bpp)
  }

  /**
   * The last filter type byte is there, and so are all bytes of the last row unless its filter
   * tolerates a short row.
   */
  predicate Readable(raw: seq<Byte>, height: nat, stride: nat, bpp: nat) {
    height > 0 ==>
      var at := Span(height - 1, stride + 1);
      && at < |raw|
      && (at + 1 + stride <= |raw| || Tolerates(raw[at], bpp, stride))
  }

  /** The rows rebuilt from the first `height` scanlines of the stream. */
  function RawRows(raw: seq<Byte>, height: nat, stride: nat, bpp: nat): (rows: seq<seq<Byte>>)
    requires bpp >= 1
    ensures |rows| == height
  {
    Reconstruct(bpp, stride, Lines(raw, height, stride))
  }

  function RawImage(raw: seq<Byte>, height: nat, stride: nat, bpp: nat): Result<seq<Byte>>
    requires bpp >= 1
  {
    if Readable(raw, height, stride, bpp) then Ok(Flatten(RawRows(raw, height, stride, bpp))) else Err(IndexError)
  }

  // ----- the loops over the bytes of a row

  /** Before x the line holds rebuilt bytes, from x on it still holds filtered ones. */
  ghost predicate Done(rule: Rule, bpp: nat, filt: seq<Byte>, prev: seq<Byte>, line: seq<Byte>, x: nat)
    requires bpp >= 1
  {
    && x <= |filt| == |line|
    && line[..x] == ReconRow(rule, bpp, filt[..x], prev)
    && line[x..] == filt[x..]
  }

  lemma StoreAt(line: seq<Byte>, filt: seq<Byte>, x: nat, v: Byte)
    requires x < |filt| == |line| && line[x..] == filt[x..]
    ensures line[x] == filt[x]
    ensures line[x := v][..x + 1] == line[..x] + [v]
    ensures line[x := v][x + 1..] == filt[x + 1..]
  {
    assert line[x..][0] == filt[x..][0];
    assert line[x..][1..] == line[x + 1..] && filt[x..][1..] == filt[x + 1..];
  }

  /** Storing the next rebuilt byte moves the border between rebuilt and filtered bytes one to the right. */
  lemma DoneStep(rule: Rule, bpp: nat, filt: seq<Byte>, prev: seq<Byte>, line: seq<Byte>, x: nat)
    requires bpp >= 1 && x < |filt|
    requires Done(rule, bpp, filt, prev, line, x)
    ensures line[x] == filt[x]
    ensures Done(rule, bpp, filt, prev, line[x := Plus(line[x], Guess(rule, bpp, line, prev, x))], x + 1)
  {
    StoreAt(line, filt, x, Plus(line[x], Guess(rule, bpp, line, prev, x)));
    GuessFromPrefix(rule, bpp, line, prev, x, x);
    ReconRowStep(rule, bpp, filt, prev, x);
  }

  lemma {:induction false} AllDone(rule: Rule, bpp: nat, filt: seq<Byte>, prev: seq<Byte>, line: seq<Byte>)
    requires bpp >= 1 && Done(rule, bpp, filt, prev, line, |filt|)
    ensures line == ReconRow(rule, bpp, filt, prev)
  {
    assert filt[..|filt|] == filt && line[..|filt|] == line;
  }

  /** The first bytes of a row, which have no left neighbour, are done from the start under Sub. */
  lemma SubStart(bpp: nat, filt: seq<Byte>, prev: seq<Byte>)
    requires 1 <= bpp <= |filt|
    ensures Done(RuleOf(1), bpp, filt, prev, filt, bpp)
  {
    ReconRowIdentity(1, bpp, filt[..bpp], prev);
  }

  /** The store all four loops end in: byte x becomes itself plus its prediction, mod 256, in place. */
  method AddAt(line: array<Byte>, x: nat, p: Byte,
               ghost rule: Rule, ghost bpp: nat, ghost filt: seq<Byte>, ghost prev: seq<Byte>)
    requires bpp >= 1 && x < line.Length
    requires Done(rule, bpp, filt, prev, line[..], x)
    requires p == Guess(rule, bpp, line[..], prev, x)
    modifies line
    ensures Done(rule, bpp, filt, prev, line[..], x + 1)
  {
    ghost var was := line[..];
    DoneStep(rule, bpp, filt, prev, was, x);
    line[x] := (line[x] as int + p) % 256;
    assert line[..] == was[x := Plus(was[x], p)];
  }

  /** The loop of Sub, over a row that has bytes with a left neighbour. */
  method SubLoop(line: array<Byte>, stride: nat, bpp: nat, ghost prev: seq<Byte>) returns (ok: bool)
    requires 1 <= bpp < line.Length <= stride
    modifies line
    ensures ok <==> line.Length == stride
    ensures ok ==> line[..] == ReconRow(RuleOf(1), bpp, old(line[..]), prev)
  {
    ghost var rule, filt := RuleOf(1), line[..];
    SubStart(bpp, filt, prev);
    assert line[..] == filt;
    var x := bpp;
    while x < stride
      invariant bpp <= x <= line.Length
      invariant Done(rule, bpp, filt, prev, line[..], x)
    {
      if x >= line.Length {
        return false;
      }
      AddAt(line, x, line[x - bpp], rule, bpp, filt, prev);
      x := x + 1;
    }
    AllDone(rule, bpp, filt, prev, line[..]);
    return true;
  }

  /** The loop starts at the first byte with a left neighbour, and may not start at all. */
  method UndoSub(line: array<Byte>, stride: nat, bpp: nat, ghost prev: seq<Byte>) returns (ok: bool)
    requires bpp >= 1 && line.Length <= stride
    modifies line
    ensures ok <==> line.Length == stride || stride <= bpp
    ensures ok ==> line[..] == ReconRow(RuleOf(1), bpp, old(line[..]), prev)
  {
    if stride <= bpp {
      ReconRowIdentity(1, bpp, line[..], prev);
      ok := true;
    } else if line.Length <= bpp {
      ok := false;
    } else {
      ok := SubLoop(line, stride, bpp, prev);
    }
  }

  lemma GuessIs(f: Byte, bpp: nat, line: seq<Byte>, prev: seq<Byte>, x: nat, a: Byte, b: Byte, c: Byte)
    requires a == At(line, x - bpp) && b == At(prev, x) && c == At(prev, x - bpp)
    ensures Guess(RuleOf(f), bpp, line, prev, x) == Predict(f, a, b, c)
  {
  }

  method UndoUp(line: array<Byte>, prev: array<Byte>, stride: nat, ghost bpp: nat) returns (ok: bool)
    requires bpp >= 1 && line.Length <= stride == prev.Length && line != prev
    modifies line
    ensures ok <==> line.Length == stride
    ensures ok ==> line[..] == ReconRow(RuleOf(2), bpp, old(line[..]), prev[..])
  {
    ghost var rule, filt, above := RuleOf(2), line[..], prev[..];
    var x := 0;
    while x < stride
      invariant 0 <= x <= line.Length
      invariant Done(rule, bpp, filt, above, line[..], x)
    {
      if x >= line.Length {
        return false;
      }
      AddAt(line, x, prev[x], rule, bpp, filt, above);
      x := x + 1;
    }
    AllDone(rule, bpp, filt, above, line[..]);
    return true;
  }

  method UndoAverage(line: array<Byte>, prev: array<Byte>, stride: nat, bpp: nat) returns (ok: bool)
    requires bpp >= 1 && line.Length <= stride == prev.Length && line != prev
    modifies line
    ensures ok <==> line.Length == stride
    ensures ok ==> line[..] == ReconRow(RuleOf(3), bpp, old(line[..]), prev[..])
  {
    ghost var rule, filt, above := RuleOf(3), line[..], prev[..];
    var x := 0;
    while x < stride
      invariant 0 <= x <= line.Length
      invariant Done(rule, bpp, filt, above, line[..], x)
    {
      if x >= line.Length {
        return false;
      }
      var left := if x >= bpp then line[x - bpp] else 0;
      GuessIs(3, bpp, line[..], above, x, left, prev[x], At(above, x - bpp));
      AddAt(line, x, (left as int + prev[x]) / 2, rule, bpp, filt, above);
      x := x + 1;
    }
    AllDone(rule, bpp, filt, above, line[..]);
    return true;
  }

  /** The reader's copy of the Paeth predictor. */
  method PredictPaeth(a: Byte, b: Byte, c: Byte) returns (pr: Byte)
    ensures pr == Paeth(a, b, c)
  {
    var p := a as int + b - c;
    var pa, pb, pc := Abs(p - a), Abs(p - b), Abs(p - c);
    if pa <= pb && pa <= pc {
      pr := a;
    } else if pb <= pc {
      pr := b;
    } else {
      pr := c;
    }
  }

  method UndoPaeth(line: array<Byte>, prev: array<Byte>, stride: nat, bpp: nat) returns (ok: bool)
    requires bpp >= 1 && line.Length <= stride == prev.Length && line != prev
    modifies line
    ensures ok <==> line.Length == stride
    ensures ok ==> line[..] == ReconRow(RuleOf(4), bpp, old(line[..]), prev[..])
  {
    ghost var rule, filt, above := RuleOf(4), line[..], prev[..];
    var x := 0;
    while x < stride
      invariant 0 <= x <= line.Length
      invariant Done(rule, bpp, filt, above, line[..], x)
    {
      if x >= line.Length {
        return false;
      }
      var a := if x >= bpp then line[x - bpp] else 0;
      var b := prev[x];
      var c := if x >= bpp then prev[x - bpp] else 0;
      var pr := PredictPaeth(a, b, c);
      GuessIs(4, bpp, line[..], above, x, a, b, c);
      AddAt(line, x, pr, rule, bpp, filt, above);
      x := x + 1;
    }
    AllDone(rule, bpp, filt, above, line[..]);
    return true;
  }

  /** Undo filter f on the row in `line`; `ok` is false when the row is cut short where the filter reads it. */
  method Unfilter(f: Byte, line: array<Byte>, prev: array<Byte>, stride: nat, bpp: nat) returns (ok: bool)
    requires bpp >= 1 && line.Length <= stride == prev.Length && line != prev
    modifies line
    ensures ok <==> line.Length == stride || Tolerates(f, bpp, stride)
    ensures ok ==> line[..] == ReconRow(RuleOf(f), bpp, old(line[..]), prev[..])
  {
    if f == 1 {
      ok := UndoSub(line, stride, bpp, prev[..]);
    } else if f == 2 {
      ok := UndoUp(line, prev, stride, bpp);
    } else if f == 3 {
      ok := UndoAverage(line, prev, stride, bpp);
    } else if f == 4 {
      ok := UndoPaeth(line, prev, stride, bpp);
    } else {
      ReconRowIdentity(f, bpp, line[..], prev[..]);
      ok := true;
    }
  }

  // ----- the loop over the rows

  /** Rows of the output buffer that are still all zeros. */
  ghost function Blank(rows: nat, stride: nat): seq<Byte> {
    if rows == 0 then [] else Zeros(stride) + Blank(rows - 1, stride)
  }

  lemma {:induction false} BlankIsZeros(rows: nat, stride: nat)
    ensures Blank(rows, stride) == Zeros(Span(rows, stride))
  {
    if rows == 0 {
    } else {
      BlankIsZeros(rows - 1, stride);
    }
  }

  /** The output buffer once y rows are written: those rows, then zeros. */
  ghost function Output(rows: seq<seq<Byte>>, height: nat, stride: nat): seq<Byte>
    requires |rows| <= height
  {
    Flatten(rows) + Blank(height - |rows|, stride)
  }

  /** When the stream reaches row y, the rows before it are complete. */
  lemma {:induction false} EarlierRowsFull(raw: seq<Byte>, y: nat, stride: nat, bpp: nat)
    requires bpp >= 1 && Span(y, stride + 1) <= |raw|
    ensures Uniform(RawRows(raw, y, stride, bpp), stride)
    ensures |Flatten(RawRows(raw, y, stride, bpp))| == Span(y, stride)
  {
    LinesFull(raw, y, stride);
    ReconstructUniform(bpp, stride, Lines(raw, y, stride));
    FlattenLength(RawRows(raw, y, stride, bpp), stride);
  }

  lemma {:induction false} NextRow(raw: seq<Byte>, y: nat, stride: nat, bpp: nat)
    requires bpp >= 1
    ensures var rows := RawRows(raw, y, stride, bpp);
            RawRows(raw, y + 1, stride, bpp)
            == rows + [ReconLine(bpp, LineAt(raw, Span(y, stride + 1), stride), Above(rows, y, stride))]
  {
    LinesSnoc(raw, y, stride);
    ReconstructSnoc(bpp, stride, Lines(raw, y, stride), LineAt(raw, Span(y, stride + 1), stride));
  }

  lemma SpliceMiddle(before: seq<Byte>, middle: seq<Byte>, after: seq<Byte>, row: seq<Byte>, at: nat, n: nat)
    requires at == |before| && n == |middle|
    ensures Splice(before + (middle + after), at, at + n, row) == before + row + after
  {
  }

  /** Writing a row over its zeros extends the finished part of the output by that row. */
  lemma {:induction false} RowWritten(rows: seq<seq<Byte>>, row: seq<Byte>, at: nat, height: nat, stride: nat)
    requires |rows| < height && |Flatten(rows)| == at
    ensures Splice(Output(rows, height, stride), at, at + stride, row) == Output(rows + [row], height, stride)
  {
    var blank := Blank(height - |rows| - 1, stride);
    FlattenSnoc(rows, row);
    SpliceMiddle(Flatten(rows), Zeros(stride), blank, row, at, stride);
  }

  lemma {:induction false} OutputStart(height: nat, stride: nat)
    ensures Output([], height, stride) == Zeros(Span(height, stride))
  {
    BlankIsZeros(height, stride);
  }

  lemma {:induction false} OutputEnd(rows: seq<seq<Byte>>, stride: nat)
    ensures Output(rows, |rows|, stride) == Flatten(rows)
  {
  }

  /** A stream that gives out before or inside row y, untolerated there, is unreadable at every greater height. */
  lemma Unreadable(raw: seq<Byte>, y: nat, height: nat, stride: nat, bpp: nat)
    requires y < height && !Readable(raw, y + 1, stride, bpp)
    ensures !Readable(raw, height, stride, bpp)
  {
    if y + 1 < height {
      SpanOrder(y, height - 1, stride + 1);
    }
  }

  /** The row at `pos`: its filter byte is read, its bytes are copied to a fresh buffer and unfiltered there. */
  method ReadRow(raw: seq<Byte>, prev: array<Byte>, pos: nat, stride: nat, bpp: nat)
    returns (ok: bool, line: array<Byte>)
    requires bpp >= 1 && pos < |raw| && prev.Length == stride
    ensures ok <==> pos + 1 + stride <= |raw| || Tolerates(raw[pos], bpp, stride)
    ensures ok ==> line[..] == ReconLine(bpp, LineAt(raw, pos, stride), prev[..])
    ensures fresh(line)
  {
    var f := raw[pos];
    var filt := Slice(raw, pos + 1, pos + 1 + stride);
    assert LineAt(raw, pos, stride) == Scanline(f, filt);
    line := new Byte[|filt|](i requires 0 <= i < |filt| => filt[i]);
    assert line[..] == filt;
    ok := Unfilter(f, line, prev, stride, bpp);
  }

  /** Where the stream gives out between two rows, the image is not readable. */
  lemma {:induction false} StreamEnds(raw: seq<Byte>, y: nat, height: nat, stride: nat, bpp: nat, pos: nat)
    requires bpp >= 1 && y < height && pos == Span(y, stride + 1)
    requires pos >= |raw| || (|raw| < pos + 1 + stride && !Tolerates(raw[pos], bpp, stride))
    ensures RawImage(raw, height, stride, bpp) == Err(IndexError)
  {
    Unreadable(raw, y, height, stride, bpp);
  }

  lemma {:induction false} PrevLength(raw: seq<Byte>, y: nat, stride: nat, bpp: nat)
    requires bpp >= 1 && Span(y, stride + 1) <= |raw|
    ensures |Above(RawRows(raw, y, stride, bpp), y, stride)| == stride
  {
    EarlierRowsFull(raw, y, stride, bpp);
  }

  /** One turn of the row loop: what it stores, and what it hands over as the row above. */
  lemma {:induction false} RowTurn(raw: seq<Byte>, y: nat, height: nat, stride: nat, bpp: nat,
                                   pos: nat, at: nat, line: seq<Byte>)
    requires bpp >= 1 && y < height && pos == Span(y, stride + 1) && at == Span(y, stride)
    requires pos < |raw|
    requires pos + 1 + stride <= |raw| || Tolerates(raw[pos], bpp, stride)
    requires var rows := RawRows(raw, y, stride, bpp);
             line == ReconLine(bpp, LineAt(raw, pos, stride), Above(rows, y, stride))
    ensures pos + 1 + stride == Span(y + 1, stride + 1) && at + stride == Span(y + 1, stride)
    ensures Readable(raw, y + 1, stride, bpp)
    ensures var rows, more := RawRows(raw, y, stride, bpp), RawRows(raw, y + 1, stride, bpp);
            && Above(more, y + 1, stride) == line
            && Splice(Output(rows, height, stride), at, at + stride, line) == Output(more, height, stride)
  {
    EarlierRowsFull(raw, y, stride, bpp);
    NextRow(raw, y, stride, bpp);
    RowWritten(RawRows(raw, y, stride, bpp), line, at, height, stride);
  }

  method ReadRaw(raw: seq<Byte>, height: nat, stride: nat, bpp: nat) returns (r: Result<seq<Byte>>)
    requires bpp >= 1
    ensures r == RawImage(raw, height, stride, bpp)
  {
    var out := Zeros(Span(height, stride));
    ghost var rows := RawRows(raw, 0, stride, bpp);
    OutputStart(height, stride);
    var prev := new Byte[stride](_ => 0);
    assert prev[..] == Zeros(stride);
    var pos, at := 0, 0;
    for y := 0 to height
      invariant rows == RawRows(raw, y, stride, bpp)
      invariant pos == Span(y, stride + 1) && at == Span(y, stride)
      invariant Readable(raw, y, stride, bpp)
      invariant prev[..] == Above(rows, y, stride)
      invariant out == Output(rows, height, stride)
    {
      if pos >= |raw| {
        StreamEnds(raw, y, height, stride, bpp, pos);
        return Err(IndexError);
      }
      PrevLength(raw, y, stride, bpp);
      assert prev.Length == |prev[..]|;
      var ok, line := ReadRow(raw, prev, pos, stride, bpp);
      if !ok {
        StreamEnds(raw, y, height, stride, bpp, pos);
        return Err(IndexError);
      }
      RowTurn(raw, y, height, stride, bpp, pos, at, line[..]);
      out := Splice(out, at, at + stride, line[..]);
      pos, at, prev := pos + 1 + stride, at + stride, line;
      rows := RawRows(raw, y + 1, stride, bpp);
    }
    OutputEnd(rows, stride);
    return Ok(out);
  }

  // ----- the recurrence

  /** The byte of the flat image at row y, byte x, and zero outside the image. */
  function Pixel(out: seq<Byte>, stride: nat, y: int, x: int): Byte {
    if 0 <= y && 0 <= x < stride && Span(y, stride) + x < |out| then out[Span(y, stride) + x] else 0
  }

  /** The PNG equations at one place: the raw byte there encodes the final byte next to its final neighbours. */
  ghost predicate Settled(raw: seq<Byte>, out: seq<Byte>, stride: nat, bpp: nat, y: nat, x: nat) {
    var at := Span(y, stride + 1);
    && at + 1 + x < |raw|
    && Encoded(raw[at], raw[at + 1 + x], Pixel(out, stride, y, x), Pixel(out, stride, y, x - bpp),
               Pixel(out, stride, y - 1, x), Pixel(out, stride, y - 1, x - bpp))
  }

  ghost predicate Recurrence(raw: seq<Byte>, out: seq<Byte>, height: nat, stride: nat, bpp: nat) {
    && |out| == Span(height, stride)
    && forall y, x :: 0 <= y < height && 0 <= x < stride ==> Settled(raw, out, stride, bpp, y, x)
  }

  /** Byte x of a row is rebuilt from its scanline and the row above. */
  predicate RebuiltAt(line: Scanline, bpp: nat, row: seq<Byte>, prev: seq<Byte>, x: nat)
    requires x < |line.bytes|
  {
    At(row, x) == Plus(line.bytes[x], Guess(RuleOf(line.filter), bpp, row, prev, x))
  }

  lemma RebuiltExactly(line: Scanline, bpp: nat, row: seq<Byte>, prev: seq<Byte>, x: nat)
    requires x < |line.bytes|
    ensures RebuiltAt(line, bpp, row, prev, x)
            <==> Encoded(line.filter, line.bytes[x], At(row, x), At(row, x - bpp), At(prev, x), At(prev, x - bpp))
  {
    var a, b, c := At(row, x - bpp), At(prev, x), At(prev, x - bpp);
    GuessIs(line.filter, bpp, row, prev, x, a, b, c);
    PlusMinusExactly(line.filter, line.bytes[x], At(row, x), a, b, c);
  }

  lemma {:induction false} PixelOfRow(rows: seq<seq<Byte>>, stride: nat, y: nat, x: int)
    requires Uniform(rows, stride) && y < |rows| && x < stride
    ensures Pixel(Flatten(rows), stride, y, x) == At(rows[y], x)
    ensures Pixel(Flatten(rows), stride, y - 1, x) == At(Above(rows, y, stride), x)
  {
    if x >= 0 {
      FlattenByte(rows, stride, y, x);
      if y > 0 {
        FlattenByte(rows, stride, y - 1, x);
      }
    }
  }

  lemma LineByte(raw: seq<Byte>, at: nat, n: nat, x: nat)
    requires at + 1 + n <= |raw| && x < n
    ensures |LineAt(raw, at, n).bytes| == n && LineAt(raw, at, n).filter == raw[at]
    ensures LineAt(raw, at, n).bytes[x] == raw[at + 1 + x]
  {
  }

  /** In terms of rows, the recurrence at (y, x) says that byte x of row y is rebuilt from its scanline. */
  lemma {:induction false} SettledByRow(raw: seq<Byte>, rows: seq<seq<Byte>>, stride: nat, bpp: nat, y: nat, x: nat)
    requires bpp >= 1 && Uniform(rows, stride) && y < |rows| && x < stride
    requires Span(|rows|, stride + 1) <= |raw|
    ensures var line := LineAt(raw, Span(y, stride + 1), stride);
            |line.bytes| == stride
            && (Settled(raw, Flatten(rows), stride, bpp, y, x)
                <==> RebuiltAt(line, bpp, rows[y], Above(rows, y, stride), x))
  {
    SpanOrder(y, |rows|, stride + 1);
    LineByte(raw, Span(y, stride + 1), stride, x);
    PixelOfRow(rows, stride, y, x);
    PixelOfRow(rows, stride, y, x - bpp);
    RebuiltExactly(LineAt(raw, Span(y, stride + 1), stride), bpp, rows[y], Above(rows, y, stride), x);
  }

  lemma ReadableWhenFull(raw: seq<Byte>, height: nat, stride: nat, bpp: nat)
    requires Span(height, stride + 1) <= |raw|
    ensures Readable(raw, height, stride, bpp)
  {
  }

  lemma {:induction false} RowRebuilt(raw: seq<Byte>, height: nat, stride: nat, bpp: nat, y: nat, x: nat)
    requires bpp >= 1 && y < height && x < stride && Span(height, stride + 1) <= |raw|
    ensures var rows, line := RawRows(raw, height, stride, bpp), LineAt(raw, Span(y, stride + 1), stride);
            |line.bytes| == stride && RebuiltAt(line, bpp, rows[y], Above(rows, y, stride), x)
  {
    var lines, line := Lines(raw, height, stride), LineAt(raw, Span(y, stride + 1), stride);
    SpanOrder(y, height, stride + 1);
    LineByte(raw, Span(y, stride + 1), stride, x);
    LinesIndex(raw, height, stride, y);
    ReconstructAt(bpp, stride, lines, y);
    ReconRowAt(RuleOf(line.filter), bpp, line.bytes, Above(RawRows(raw, height, stride, bpp), y, stride), x);
  }

  lemma {:induction false} RecurrenceHolds(raw: seq<Byte>, height: nat, stride: nat, bpp: nat)
    requires bpp >= 1 && Span(height, stride + 1) <= |raw|
    ensures Recurrence(raw, Flatten(RawRows(raw, height, stride, bpp)), height, stride, bpp)
  {
    var rows := RawRows(raw, height, stride, bpp);
    EarlierRowsFull(raw, height, stride, bpp);
    forall y, x | 0 <= y < height && 0 <= x < stride
      ensures Settled(raw, Flatten(rows), stride, bpp, y, x)
    {
      SettledByRow(raw, rows, stride, bpp, y, x);
      RowRebuilt(raw, height, stride, bpp, y, x);
    }
  }

  lemma FilteredBack(line: Scanline, bpp: nat, row: seq<Byte>, prev: seq<Byte>)
    requires |row| == |line.bytes|
    requires forall x :: 0 <= x < |row| ==> RebuiltAt(line, bpp, row, prev, x)
    ensures FilterLine(line.filter, bpp, row, prev) == line
  {
    var rule := RuleOf(line.filter);
    forall x | 0 <= x < |row|
      ensures FilterRow(rule, bpp, row, prev)[x] == line.bytes[x]
    {
      assert RebuiltAt(line, bpp, row, prev, x);
      MinusPlus(line.bytes[x], Guess(rule, bpp, row, prev, x));
    }
  }

  lemma {:induction false} RowDetermined(raw: seq<Byte>, rows: seq<seq<Byte>>, stride: nat, bpp: nat, y: nat)
    requires bpp >= 1 && Uniform(rows, stride) && y < |rows| && Span(|rows|, stride + 1) <= |raw|
    requires Recurrence(raw, Flatten(rows), |rows|, stride, bpp)
    ensures var line := LineAt(raw, Span(y, stride + 1), stride);
            FilterLine(line.filter, bpp, rows[y], Above(rows, y, stride)) == line
  {
    var line := LineAt(raw, Span(y, stride + 1), stride);
    SpanOrder(y, |rows|, stride + 1);
    forall x | 0 <= x < stride
      ensures |line.bytes| == stride && RebuiltAt(line, bpp, rows[y], Above(rows, y, stride), x)
    {
      assert Settled(raw, Flatten(rows), stride, bpp, y, x);
      SettledByRow(raw, rows, stride, bpp, y, x);
    }
    FilteredBack(line, bpp, rows[y], Above(rows, y, stride));
  }

  lemma {:induction false} RowsDetermined(raw: seq<Byte>, rows: seq<seq<Byte>>, stride: nat, bpp: nat)
    requires bpp >= 1 && Uniform(rows, stride) && Span(|rows|, stride + 1) <= |raw|
    requires Recurrence(raw, Flatten(rows), |rows|, stride, bpp)
    ensures rows == RawRows(raw, |rows|, stride, bpp)
  {
    var lines := Lines(raw, |rows|, stride);
    var filtered := FilterImage(FilterTypes(lines), bpp, stride, rows);
    forall y | 0 <= y < |rows|
      ensures filtered[y] == lines[y]
    {
      LinesIndex(raw, |rows|, stride, y);
      RowDetermined(raw, rows, stride, bpp, y);
    }
    assert filtered == lines;
    ImageBijection(bpp, stride, lines, rows);
  }

  lemma {:induction false} RecurrenceDetermines(raw: seq<Byte>, out: seq<Byte>, height: nat, stride: nat, bpp: nat)
    requires bpp >= 1 && Span(height, stride + 1) <= |raw|
    requires Recurrence(raw, out, height, stride, bpp)
    ensures out == Flatten(RawRows(raw, height, stride, bpp))
  {
    CutUniform(out, height, stride);
    FlattenCut(out, height, stride);
    assert out[..Span(height, stride)] == out;
    RowsDetermined(raw, Cut(out, height, stride), stride, bpp);
  }

  /**
   * Given all rows, the in-place, row-by-row reader returns the one image that meets the equations of
   * sections 6.2 to 6.6 of RFC 2083 at every byte.
   */
  lemma {:induction false} DecoderMeetsRecurrence(raw: seq<Byte>, out: seq<Byte>, height: nat, stride: nat, bpp: nat)
    requires bpp >= 1 && Span(height, stride + 1) <= |raw|
    ensures RawImage(raw, height, stride, bpp) == Ok(out) <==> Recurrence(raw, out, height, stride, bpp)
  {
    ReadableWhenFull(raw, height, stride, bpp);
    if RawImage(raw, height, stride, bpp) == Ok(out) {
      RecurrenceHolds(raw, height, stride, bpp);
    }
    if Recurrence(raw, out, height, stride, bpp) {
      RecurrenceDetermines(raw, out, height, stride, bpp);
    }
  }

  lemma PixelInside(out: seq<Byte>, stride: nat, bpp: nat, height: nat, y: nat, x: nat, o: nat)
    requires bpp >= 1 && y < height && x < stride && |out| == Span(height, stride) && o == Span(y, stride)
    ensures o + x < |out| && (y > 0 ==> o >= stride)
    ensures Pixel(out, stride, y, x) == out[o + x]
    ensures Pixel(out, stride, y, x - bpp) == if x >= bpp then out[o + x - bpp] else 0
    ensures Pixel(out, stride, y - 1, x) == if y > 0 then out[o - stride + x] else 0
    ensures Pixel(out, stride, y - 1, x - bpp) == if y > 0 && x >= bpp then out[o - stride + x - bpp] else 0
  {
    SpanOrder(y, height, stride);
  }

  lemma SettledHere(raw: seq<Byte>, out: seq<Byte>, stride: nat, bpp: nat, y: nat, x: nat, at: nat,
                    p: Byte, l: Byte, u: Byte, c: Byte)
    requires at == Span(y, stride + 1) && Settled(raw, out, stride, bpp, y, x)
    requires p == Pixel(out, stride, y, x) && l == Pixel(out, stride, y, x - bpp)
    requires u == Pixel(out, stride, y - 1, x) && c == Pixel(out, stride, y - 1, x - bpp)
    ensures at + 1 + x < |raw| && Encoded(raw[at], raw[at + 1 + x], p, l, u, c)
  {
  }

  /** The equations byte by byte, at flat offsets: only final bytes of the image, or zeros, enter the prediction. */
  lemma {:induction false} ByteDecoded(raw: seq<Byte>, out: seq<Byte>, height: nat, stride: nat, bpp: nat,
                                       y: nat, x: nat, at: nat, o: nat)
    requires bpp >= 1 && y < height && x < stride && Span(height, stride + 1) <= |raw|
    requires at == Span(y, stride + 1) && o == Span(y, stride)
    requires RawImage(raw, height, stride, bpp) == Ok(out)
    ensures at + 1 + x < |raw| && o + x < |out| && (y > 0 ==> o >= stride)
    ensures Encoded(raw[at], raw[at + 1 + x], out[o + x],
                    if x >= bpp then out[o + x - bpp] else 0,
                    if y > 0 then out[o - stride + x] else 0,
                    if y > 0 && x >= bpp then out[o - stride + x - bpp] else 0)
  {
    DecoderMeetsRecurrence(raw, out, height, stride, bpp);
    PixelInside(out, stride, bpp, height, y, x, o);
    SettledHere(raw, out, stride, bpp, y, x, at, out[o + x],
                if x >= bpp then out[o + x - bpp] else 0,
                if y > 0 then out[o - stride + x] else 0,
                if y > 0 && x >= bpp then out[o - stride + x - bpp] else 0);
  }

  // ----- complete, short and surplus streams

  lemma ShortRow(raw: seq<Byte>, at: nat, stride: nat, bpp: nat, prev: seq<Byte>)
    requires bpp >= 1 && at < |raw| <= at + 1 + stride && Tolerates(raw[at], bpp, stride)
    ensures ReconLine(bpp, LineAt(raw, at, stride), prev) == raw[at + 1..]
  {
    assert Slice(raw, at + 1, at + 1 + stride) == raw[at + 1..];
    ReconRowIdentity(raw[at], bpp, raw[at + 1..], prev);
  }

  /**
   * When the stream ends inside the last row, y, whose filter byte is at offset `at`, and is read all the
   * same, the image is that of the complete rows followed by what is left of the last one as it stands.
   */
  lemma {:induction false} ShortImageTail(raw: seq<Byte>, y: nat, at: nat, stride: nat, bpp: nat)
    requires bpp >= 1 && at == Span(y, stride + 1) && |raw| < at + 1 + stride
    requires Readable(raw, y + 1, stride, bpp)
    ensures at < |raw| && RawImage(raw, y, stride, bpp).Ok?
    ensures RawImage(raw, y + 1, stride, bpp) == Ok(RawImage(raw, y, stride, bpp).value + raw[at + 1..])
  {
    ReadableWhenFull(raw, y, stride, bpp);
    NextRow(raw, y, stride, bpp);
    ShortRow(raw, at, stride, bpp, Above(RawRows(raw, y, stride, bpp), y, stride));
    FlattenSnoc(RawRows(raw, y, stride, bpp), raw[at + 1..]);
  }

  lemma {:induction false} ShortSize(raw: seq<Byte>, y: nat, stride: nat, bpp: nat)
    requires bpp >= 1 && |raw| < Span(y, stride + 1) + 1 + stride
    requires Readable(raw, y + 1, stride, bpp)
    ensures |RawImage(raw, y + 1, stride, bpp).value| < Span(y, stride) + stride
  {
    ShortImageTail(raw, y, Span(y, stride + 1), stride, bpp);
    EarlierRowsFull(raw, y, stride, bpp);
  }

  lemma {:induction false} FullSize(raw: seq<Byte>, height: nat, stride: nat, bpp: nat)
    requires bpp >= 1 && Span(height, stride + 1) <= |raw|
    ensures |Flatten(RawRows(raw, height, stride, bpp))| == Span(height, stride)
  {
    EarlierRowsFull(raw, height, stride, bpp);
  }

  lemma {:induction false} NotFullSize(raw: seq<Byte>, height: nat, stride: nat, bpp: nat)
    requires bpp >= 1 && Readable(raw, height, stride, bpp) && |raw| < Span(height, stride + 1)
    ensures |Flatten(RawRows(raw, height, stride, bpp))| < Span(height, stride)
  {
    var y := height - 1;
    ShortSize(raw, y, stride, bpp);
  }

  /** What the reader accepts has its full size exactly when no byte of the last row is missing. */
  lemma {:induction false} FullSizeExactly(raw: seq<Byte>, height: nat, stride: nat, bpp: nat, out: seq<Byte>)
    requires bpp >= 1 && RawImage(raw, height, stride, bpp) == Ok(out)
    ensures |out| == Span(height, stride) <==> Span(height, stride + 1) <= |raw|
    ensures |out| <= Span(height, stride)
  {
    if Span(height, stride + 1) <= |raw| {
      FullSize(raw, height, stride, bpp);
    } else {
      NotFullSize(raw, height, stride, bpp);
    }
  }

  /** A 1 x 1 RGBA stream of only a filter byte is accepted, and yields no pixel at all. */
  lemma ShortImageExample()
    ensures RawImage([0], 1, 4, 4) == Ok([])
  {
    assert Span(0, 5) == 0;
    ShortImageTail([0], 0, 0, 4, 4);
    assert Lines([0], 0, 4) == [];
  }

  lemma LineOfPrefix(raw: seq<Byte>, more: seq<Byte>, at: nat, n: nat)
    requires at + 1 + n <= |raw|
    ensures LineAt(raw + more, at, n) == LineAt(raw, at, n)
  {
    TakeLeft(raw, more, at + 1, at + 1 + n);
  }

  lemma LinesOfPrefix(raw: seq<Byte>, more: seq<Byte>, k: nat, height: nat, stride: nat)
    requires k <= height && |raw| == Span(k, stride + 1)
    ensures Lines(raw + more, height, stride)[..k] == Lines(raw, k, stride)
  {
    var long, short := Lines(raw + more, height, stride), Lines(raw, k, stride);
    forall y | 0 <= y < k
      ensures long[y] == short[y]
    {
      SpanOrder(y, k, stride + 1);
      LineOfPrefix(raw, more, Span(y, stride + 1), stride);
      LinesIndex(raw + more, height, stride, y);
      LinesIndex(raw, k, stride, y);
    }
  }

  lemma {:induction false} FlattenPrefix(rows: seq<seq<Byte>>, k: nat)
    requires k <= |rows|
    ensures Flatten(rows[..k]) <= Flatten(rows)
  {
    if k == |rows| {
      assert rows[..k] == rows;
    } else {
      var m := |rows| - 1;
      FlattenPrefix(rows[..m], k);
      TakeTake(rows, m, k);
    }
  }

  /** The first k rows depend only on the first k * (stride + 1) bytes; decoding these gives a prefix of the image. */
  lemma {:induction false} StreamingPrefix(raw: seq<Byte>, more: seq<Byte>, k: nat, height: nat, stride: nat, bpp: nat)
    requires bpp >= 1 && k <= height
    requires |raw| == Span(k, stride + 1)
    requires Readable(raw + more, height, stride, bpp)
    ensures RawImage(raw, k, stride, bpp).Ok?
    ensures |RawImage(raw, k, stride, bpp).value| == Span(k, stride)
    ensures RawImage(raw, k, stride, bpp).value <= RawImage(raw + more, height, stride, bpp).value
    ensures RawImage(raw, k, stride, bpp) == RawImage(raw + more, k, stride, bpp)
  {
    ReadableWhenFull(raw, k, stride, bpp);
    ReadableWhenFull(raw + more, k, stride, bpp);
    EarlierRowsFull(raw, k, stride, bpp);
    LinesOfPrefix(raw, more, k, height, stride);
    LinesOfPrefix(raw, more, k, k, stride);
    assert Lines(raw + more, k, stride)[..k] == Lines(raw + more, k, stride);
    ReconstructPrefix(bpp, stride, Lines(raw + more, height, stride), k);
    FlattenPrefix(RawRows(raw + more, height, stride, bpp), k);
  }

  lemma {:induction false} EncodedStreamRead(raw: seq<Byte>, fs: seq<Byte>, rows: seq<seq<Byte>>, n: nat, bpp: nat)
    requires bpp >= 1 && Uniform(rows, n) && |fs| == |rows|
    requires Serialise(FilterImage(fs, bpp, n, rows)) <= raw
    ensures RawImage(raw, |rows|, n, bpp) == Ok(Flatten(rows))
  {
    var lines := FilterImage(fs, bpp, n, rows);
    var stream := Serialise(lines);
    assert Full(lines, n);
    assert stream + raw[|stream|..] == raw;
    LinesOfSerialise(lines, n, raw[|stream|..]);
    ReadableWhenFull(raw, |rows|, n, bpp);
    ReconstructFilterImage(fs, bpp, n, rows);
  }

  /**
   * A full-size image is what the reader returns exactly when the stream begins with the scanlines of
   * that image, each filtered under some type.
   */
  lemma {:induction false} StreamEncodesExactly(raw: seq<Byte>, rows: seq<seq<Byte>>, n: nat, bpp: nat)
    requires bpp >= 1 && Uniform(rows, n)
    ensures RawImage(raw, |rows|, n, bpp) == Ok(Flatten(rows))
            <==> exists fs: seq<Byte> ::
                   |fs| == |rows| && Serialise(FilterImage(fs, bpp, n, rows)) <= raw
  {
    var h := |rows|;
    FlattenLength(rows, n);
    if RawImage(raw, h, n, bpp) == Ok(Flatten(rows)) {
      var fs := FilterTypes(Lines(raw, h, n));
      FullSizeExactly(raw, h, n, bpp, Flatten(rows));
      EarlierRowsFull(raw, h, n, bpp);
      CutFlatten(rows, n);
      CutFlatten(RawRows(raw, h, n, bpp), n);
      ImageBijection(bpp, n, Lines(raw, h, n), rows);
      SerialiseLines(raw, h, n);
      assert Serialise(FilterImage(fs, bpp, n, rows)) <= raw;
    }
    forall fs: seq<Byte> | |fs| == h && Serialise(FilterImage(fs, bpp, n, rows)) <= raw
      ensures RawImage(raw, h, n, bpp) == Ok(Flatten(rows))
    {
      EncodedStreamRead(raw, fs, rows, n, bpp);
    }
  }
}
