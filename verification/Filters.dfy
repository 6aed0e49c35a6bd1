/** Filtering and reconstructing rows and whole images, at any pixel distance `bpp`. */
module Filters {
  import opened Bytes
  import opened Predictor
  import opened Raster

  /** One row of the raw stream: its filter type byte and its filtered bytes. */
  datatype Scanline = Scanline(filter: Byte, bytes: seq<Byte>)

  function Minus(v: Byte, p: Byte): Byte {
    (v - p) % 256
  }

  function Plus(e: Byte, p: Byte): Byte {
    (e + p) % 256
  }

  lemma MinusPlus(v: Byte, p: Byte)
    ensures Plus(Minus(v, p), p) == v
    ensures Minus(Plus(v, p), p) == v
  {
    assert (v + p) % 256 == if v + p < 256 then v + p else v + p - 256;
    assert (v - p) % 256 == if v < p then v - p + 256 else v - p;
  }

  lemma Congruent(e: Byte, p: Byte, q: Byte)
    ensures p == Plus(e, q) <==> (p - e - q) % 256 == 0
    ensures e == Minus(p, q) <==> (p - e - q) % 256 == 0
  {
  }

  lemma OnePrediction(f: Byte, e: Byte, p: Byte, a: Byte, b: Byte, c: Byte, q: Byte)
    requires q == Predict(f, a, b, c)
    ensures (p - e - q) % 256 == 0 <==> Encoded(f, e, p, a, b, c)
  {
    if f == 3 {
      AverageIsHalf(a, b, c, q);
      forall r | HalfOf(r, a, b)
        ensures r == q
      {
        AverageIsHalf(a, b, c, r);
      }
    } else if f == 4 {
      PaethIsNearest(a, b, c, q);
      forall r | NearestNeighbour(r, a, b, c)
        ensures r == q
      {
        PaethIsNearest(a, b, c, r);
      }
    }
  }

  /** Adding the prediction and taking it away both meet the equation of the filter type, and nothing else does. */
  lemma PlusMinusExactly(f: Byte, e: Byte, p: Byte, a: Byte, b: Byte, c: Byte)
    ensures p == Plus(e, Predict(f, a, b, c)) <==> Encoded(f, e, p, a, b, c)
    ensures e == Minus(p, Predict(f, a, b, c)) <==> Encoded(f, e, p, a, b, c)
  {
    Congruent(e, p, Predict(f, a, b, c));
    OnePrediction(f, e, p, a, b, c, Predict(f, a, b, c));
  }

  /** What the rule predicts for byte x of a row, given the row and the one above it. */
  function Guess(rule: Rule, bpp: nat, row: seq<Byte>, prev: seq<Byte>, x: nat): Byte {
    rule(At(row, x - bpp), At(prev, x), At(prev, x - bpp))
  }

  /** Every byte minus its prediction from the unfiltered row and the unfiltered row above it. */
  function FilterRow(rule: Rule, bpp: nat, row: seq<Byte>, prev: seq<Byte>): (filt: seq<Byte>)
    ensures |filt| == |row|
  {
    seq(|row|, x requires 0 <= x < |row| => Minus(row[x], Guess(rule, bpp, row, prev, x)))
  }

  /** The row rebuilt from left to right: byte x is predicted from bytes already rebuilt. */
  function ReconRow(rule: Rule, bpp: nat, filt: seq<Byte>, prev: seq<Byte>): (row: seq<Byte>)
    requires bpp >= 1
    ensures |row| == |filt|
  {
    if filt == [] then [] else
    var n := |filt| - 1;
    var row := ReconRow(rule, bpp, filt[..n], prev);
    row + [Plus(filt[n], Guess(rule, bpp, row, prev, n))]
  }

  // ----- one row

  lemma {:induction false} ReconRowStep(rule: Rule, bpp: nat, filt: seq<Byte>, prev: seq<Byte>, x: nat)
    requires bpp >= 1 && x < |filt|
    ensures var done := ReconRow(rule, bpp, filt[..x], prev);
            ReconRow(rule, bpp, filt[..x + 1], prev) == done + [Plus(filt[x], Guess(rule, bpp, done, prev, x))]
  {
    TakeTake(filt, x + 1, x);
  }

  lemma {:induction false} ReconRowPrefix(rule: Rule, bpp: nat, filt: seq<Byte>, prev: seq<Byte>, k: nat)
    requires bpp >= 1 && k <= |filt|
    ensures ReconRow(rule, bpp, filt, prev)[..k] == ReconRow(rule, bpp, filt[..k], prev)
  {
    if k == |filt| {
      assert filt[..k] == filt;
    } else {
      var m := |filt| - 1;
      var row := ReconRow(rule, bpp, filt[..m], prev);
      ReconRowPrefix(rule, bpp, filt[..m], prev, k);
      TakeTake(filt, m, k);
      TakeSnoc(row, Plus(filt[m], Guess(rule, bpp, row, prev, m)), k);
    }
  }

  lemma GuessFromPrefix(rule: Rule, bpp: nat, row: seq<Byte>, prev: seq<Byte>, k: nat, x: nat)
    requires bpp >= 1 && x <= k <= |row|
    ensures Guess(rule, bpp, row[..k], prev, x) == Guess(rule, bpp, row, prev, x)
  {
    assert At(row[..k], x - bpp) == At(row, x - bpp);
  }

  /** Each rebuilt byte is its filtered byte plus the prediction from rebuilt bytes, mod 256. */
  lemma {:induction false} ReconRowAt(rule: Rule, bpp: nat, filt: seq<Byte>, prev: seq<Byte>, x: nat)
    requires bpp >= 1 && x < |filt|
    ensures var row := ReconRow(rule, bpp, filt, prev);
            row[x] == Plus(filt[x], Guess(rule, bpp, row, prev, x))
  {
    var row := ReconRow(rule, bpp, filt, prev);
    ReconRowPrefix(rule, bpp, filt, prev, x + 1);
    ReconRowPrefix(rule, bpp, filt, prev, x);
    ReconRowStep(rule, bpp, filt, prev, x);
    GuessFromPrefix(rule, bpp, row, prev, x, x);
    assert row[x] == row[..x + 1][x];
  }

  /** Reconstruct, then filter again: nothing is lost. */
  lemma {:induction false} FilterReconRow(rule: Rule, bpp: nat, filt: seq<Byte>, prev: seq<Byte>)
    requires bpp >= 1
    ensures FilterRow(rule, bpp, ReconRow(rule, bpp, filt, prev), prev) == filt
  {
    var row := ReconRow(rule, bpp, filt, prev);
    forall x | 0 <= x < |filt|
      ensures FilterRow(rule, bpp, row, prev)[x] == filt[x]
    {
      ReconRowAt(rule, bpp, filt, prev, x);
      MinusPlus(filt[x], Guess(rule, bpp, row, prev, x));
    }
  }

  lemma FilterRowPrefix(rule: Rule, bpp: nat, row: seq<Byte>, prev: seq<Byte>, n: nat)
    requires bpp >= 1 && n <= |row|
    ensures FilterRow(rule, bpp, row, prev)[..n] == FilterRow(rule, bpp, row[..n], prev)
  {
    var whole, part := FilterRow(rule, bpp, row, prev), FilterRow(rule, bpp, row[..n], prev);
    forall x | 0 <= x < n
      ensures whole[x] == part[x]
    {
      GuessFromPrefix(rule, bpp, row, prev, n, x);
    }
  }

  /** Filter, then reconstruct: the original row comes back. */
  lemma {:induction false} ReconFilterRow(rule: Rule, bpp: nat, row: seq<Byte>, prev: seq<Byte>)
    requires bpp >= 1
    ensures ReconRow(rule, bpp, FilterRow(rule, bpp, row, prev), prev) == row
  {
    if row == [] {
    } else {
      var n, filt := |row| - 1, FilterRow(rule, bpp, row, prev);
      ReconFilterRow(rule, bpp, row[..n], prev);
      FilterRowPrefix(rule, bpp, row, prev, n);
      GuessFromPrefix(rule, bpp, row, prev, n, n);
      MinusPlus(row[n], Guess(rule, bpp, row, prev, n));
      InitLast(row);
    }
  }

  /** The two directions of a row are each other's inverse, so a row and its filtered form determine each other. */
  lemma {:induction false} RowBijection(rule: Rule, bpp: nat, row: seq<Byte>, filt: seq<Byte>, prev: seq<Byte>)
    requires bpp >= 1
    ensures ReconRow(rule, bpp, filt, prev) == row <==> FilterRow(rule, bpp, row, prev) == filt
  {
    ReconFilterRow(rule, bpp, row, prev);
    FilterReconRow(rule, bpp, filt, prev);
  }

  lemma FilterByNothing(rule: Rule, bpp: nat, row: seq<Byte>, prev: seq<Byte>)
    requires forall x :: 0 <= x < |row| ==> Guess(rule, bpp, row, prev, x) == 0
    ensures FilterRow(rule, bpp, row, prev) == row
  {
    forall x | 0 <= x < |row|
      ensures FilterRow(rule, bpp, row, prev)[x] == row[x]
    {
      assert Guess(rule, bpp, row, prev, x) == 0;
    }
  }

  /** Where Sub has no left neighbour, and always under a type outside 1..4, filtered and rebuilt bytes coincide. */
  lemma {:induction false} ReconRowIdentity(f: Byte, bpp: nat, filt: seq<Byte>, prev: seq<Byte>)
    requires bpp >= 1
    requires !(1 <= f <= 4) || (f == 1 && |filt| <= bpp)
    ensures ReconRow(RuleOf(f), bpp, filt, prev) == filt
  {
    forall x | 0 <= x < |filt|
      ensures Guess(RuleOf(f), bpp, filt, prev, x) == 0
    {
    }
    FilterByNothing(RuleOf(f), bpp, filt, prev);
    RowBijection(RuleOf(f), bpp, filt, filt, prev);
  }

  // ----- the whole image

  /** The row above row y of an image n bytes wide; above the first row lie zeros. */
  function Above(rows: seq<seq<Byte>>, y: nat, n: nat): seq<Byte>
    requires y <= |rows|
  {
    if y == 0 then Zeros(n) else rows[y - 1]
  }

  /** A scanline rebuilt under its own filter type. */
  function ReconLine(bpp: nat, line: Scanline, prev: seq<Byte>): (row: seq<Byte>)
    requires bpp >= 1
    ensures |row| == |line.bytes|
  {
    ReconRow(RuleOf(line.filter), bpp, line.bytes, prev)
  }

  /** A row filtered with type f. */
  function FilterLine(f: Byte, bpp: nat, row: seq<Byte>, prev: seq<Byte>): Scanline {
    Scanline(f, FilterRow(RuleOf(f), bpp, row, prev))
  }

  /** Every row rebuilt in order, each from the rebuilt row above it. */
  function Reconstruct(bpp: nat, n: nat, lines: seq<Scanline>): (rows: seq<seq<Byte>>)
    requires bpp >= 1
    ensures |rows| == |lines|
  {
    if lines == [] then [] else
    var k := |lines| - 1;
    var rows := Reconstruct(bpp, n, lines[..k]);
    rows + [ReconLine(bpp, lines[k], Above(rows, k, n))]
  }

  /** Every row filtered with its own filter type. */
  function FilterImage(fs: seq<Byte>, bpp: nat, n: nat, rows: seq<seq<Byte>>): (lines: seq<Scanline>)
    requires |fs| == |rows|
    ensures |lines| == |rows|
  {
    seq(|rows|, y requires 0 <= y < |rows| => FilterLine(fs[y], bpp, rows[y], Above(rows, y, n)))
  }

  function FilterTypes(lines: seq<Scanline>): (fs: seq<Byte>)
    ensures |fs| == |lines|
  {
    seq(|lines|, y requires 0 <= y < |lines| => lines[y].filter)
  }

  ghost predicate Full(lines: seq<Scanline>, n: nat) {
    forall y :: 0 <= y < |lines| ==> |lines[y].bytes| == n
  }

  lemma {:induction false} ReconstructSnoc(bpp: nat, n: nat, lines: seq<Scanline>, line: Scanline)
    requires bpp >= 1
    ensures var rows := Reconstruct(bpp, n, lines);
            Reconstruct(bpp, n, lines + [line]) == rows + [ReconLine(bpp, line, Above(rows, |lines|, n))]
  {
    assert (lines + [line])[..|lines|] == lines;
  }

  /** Rebuilding the first k rows needs the first k scanlines and nothing after them. */
  lemma {:induction false} ReconstructPrefix(bpp: nat, n: nat, lines: seq<Scanline>, k: nat)
    requires bpp >= 1 && k <= |lines|
    ensures Reconstruct(bpp, n, lines)[..k] == Reconstruct(bpp, n, lines[..k])
  {
    if k == |lines| {
      assert lines[..k] == lines;
    } else {
      var m := |lines| - 1;
      var rows := Reconstruct(bpp, n, lines[..m]);
      ReconstructPrefix(bpp, n, lines[..m], k);
      TakeTake(lines, m, k);
      TakeSnoc(rows, ReconLine(bpp, lines[m], Above(rows, m, n)), k);
    }
  }

  lemma {:induction false} ReconstructAt(bpp: nat, n: nat, lines: seq<Scanline>, y: nat)
    requires bpp >= 1 && y < |lines|
    ensures var rows := Reconstruct(bpp, n, lines);
            rows[y] == ReconLine(bpp, lines[y], Above(rows, y, n))
  {
    var rows := Reconstruct(bpp, n, lines);
    ReconstructPrefix(bpp, n, lines, y + 1);
    ReconstructPrefix(bpp, n, lines, y);
    TakeTake(lines, y + 1, y);
    assert rows[y] == rows[..y + 1][y];
    assert y > 0 ==> rows[y - 1] == rows[..y][y - 1];
  }

  lemma {:induction false} ReconstructUniform(bpp: nat, n: nat, lines: seq<Scanline>)
    requires bpp >= 1 && Full(lines, n)
    ensures Uniform(Reconstruct(bpp, n, lines), n)
  {
    forall y | 0 <= y < |lines|
      ensures |Reconstruct(bpp, n, lines)[y]| == n
    {
      ReconstructAt(bpp, n, lines, y);
    }
  }

  lemma FilterImagePrefix(fs: seq<Byte>, bpp: nat, n: nat, rows: seq<seq<Byte>>, k: nat)
    requires |fs| == |rows| && k <= |rows|
    ensures FilterImage(fs, bpp, n, rows)[..k] == FilterImage(fs[..k], bpp, n, rows[..k])
  {
    var whole, part := FilterImage(fs, bpp, n, rows), FilterImage(fs[..k], bpp, n, rows[..k]);
    forall y | 0 <= y < k
      ensures whole[y] == part[y]
    {
      assert Above(rows, y, n) == Above(rows[..k], y, n);
    }
  }

  lemma ReconFilterLine(f: Byte, bpp: nat, row: seq<Byte>, prev: seq<Byte>)
    requires bpp >= 1
    ensures ReconLine(bpp, FilterLine(f, bpp, row, prev), prev) == row
  {
    ReconFilterRow(RuleOf(f), bpp, row, prev);
  }

  lemma FilterReconLine(bpp: nat, line: Scanline, prev: seq<Byte>)
    requires bpp >= 1
    ensures FilterLine(line.filter, bpp, ReconLine(bpp, line, prev), prev) == line
  {
    FilterReconRow(RuleOf(line.filter), bpp, line.bytes, prev);
  }

  /** Whatever filter type each row is given, the rebuilt image is the original one. */
  lemma {:induction false} ReconstructFilterImage(fs: seq<Byte>, bpp: nat, n: nat, rows: seq<seq<Byte>>)
    requires bpp >= 1 && |fs| == |rows|
    ensures Reconstruct(bpp, n, FilterImage(fs, bpp, n, rows)) == rows
  {
    if rows == [] {
    } else {
      var k, lines := |rows| - 1, FilterImage(fs, bpp, n, rows);
      ReconstructFilterImage(fs[..k], bpp, n, rows[..k]);
      FilterImagePrefix(fs, bpp, n, rows, k);
      assert Above(rows[..k], k, n) == Above(rows, k, n);
      ReconFilterLine(fs[k], bpp, rows[k], Above(rows, k, n));
      InitLast(rows);
    }
  }

  /** A stream of scanlines is the filtered form of the image it rebuilds to, and of no other image. */
  lemma {:induction false} ImageBijection(bpp: nat, n: nat, lines: seq<Scanline>, rows: seq<seq<Byte>>)
    requires bpp >= 1 && |lines| == |rows|
    ensures Reconstruct(bpp, n, lines) == rows <==> FilterImage(FilterTypes(lines), bpp, n, rows) == lines
  {
    var back := FilterImage(FilterTypes(lines), bpp, n, rows);
    if Reconstruct(bpp, n, lines) == rows {
      forall y | 0 <= y < |lines|
        ensures back[y] == lines[y]
      {
        ReconstructAt(bpp, n, lines, y);
        FilterReconLine(bpp, lines[y], Above(rows, y, n));
      }
    }
    ReconstructFilterImage(FilterTypes(lines), bpp, n, rows);
  }

  // ----- the raw stream

  function Packed(lines: seq<Scanline>): (rows: seq<seq<Byte>>)
    ensures |rows| == |lines|
  {
    seq(|lines|, y requires 0 <= y < |lines| => [lines[y].filter] + lines[y].bytes)
  }

  /** The raw stream: each row is its filter type byte followed by its filtered bytes. */
  function Serialise(lines: seq<Scanline>): seq<Byte> {
    Flatten(Packed(lines))
  }

  /** The scanline of n bytes at an offset; bytes missing at the end of the stream are missing from it. */
  function LineAt(raw: seq<Byte>, at: nat, n: nat): Scanline {
    Scanline(At(raw, at), Slice(raw, at + 1, at + 1 + n))
  }

  /** The first h scanlines of a raw stream. */
  function Lines(raw: seq<Byte>, h: nat, n: nat): (lines: seq<Scanline>)
    ensures |lines| == h
  {
    seq(h, y requires 0 <= y < h => LineAt(raw, Span(y, n + 1), n))
  }

  lemma LinesIndex(raw: seq<Byte>, h: nat, n: nat, y: nat)
    requires y < h
    ensures Lines(raw, h, n)[y] == LineAt(raw, Span(y, n + 1), n)
  {
  }

  lemma LinesSnoc(raw: seq<Byte>, y: nat, n: nat)
    ensures Lines(raw, y + 1, n) == Lines(raw, y, n) + [LineAt(raw, Span(y, n + 1), n)]
  {
    var more, fewer := Lines(raw, y + 1, n), Lines(raw, y, n);
    forall i | 0 <= i < y
      ensures more[i] == fewer[i]
    {
    }
  }

  lemma SerialiseSnoc(lines: seq<Scanline>, line: Scanline)
    ensures Serialise(lines + [line]) == Serialise(lines) + [line.filter] + line.bytes
  {
    var row := [line.filter] + line.bytes;
    assert Packed(lines + [line]) == Packed(lines) + [row];
    FlattenSnoc(Packed(lines), row);
    Associate(Serialise(lines), [line.filter], line.bytes);
  }

  lemma LineOfRow(raw: seq<Byte>, at: nat, line: Scanline, n: nat)
    requires |line.bytes| == n && at + 1 + n <= |raw|
    requires raw[at..at + (n + 1)] == [line.filter] + line.bytes
    ensures LineAt(raw, at, n) == line
  {
    var row := raw[at..at + (n + 1)];
    assert raw[at] == row[0];
    assert raw[at + 1..at + 1 + n] == row[1..] == line.bytes;
  }

  lemma {:induction false} SerialiseLength(lines: seq<Scanline>, n: nat)
    requires Full(lines, n)
    ensures |Serialise(lines)| == Span(|lines|, n + 1)
  {
    FlattenLength(Packed(lines), n + 1);
  }

  lemma {:induction false} LineOfSerialise(lines: seq<Scanline>, n: nat, tail: seq<Byte>, y: nat)
    requires Full(lines, n) && y < |lines|
    ensures LineAt(Serialise(lines) + tail, Span(y, n + 1), n) == lines[y]
  {
    var raw, at := Serialise(lines), Span(y, n + 1);
    FlattenRow(Packed(lines), n + 1, y);
    TakeLeft(raw, tail, at, at + (n + 1));
    LineOfRow(raw + tail, at, lines[y], n);
  }

  /** The stream has one byte more than n for every row, and is read back as the same scanlines. */
  lemma {:induction false} LinesOfSerialise(lines: seq<Scanline>, n: nat, tail: seq<Byte>)
    requires Full(lines, n)
    ensures |Serialise(lines)| == Span(|lines|, n + 1)
    ensures Lines(Serialise(lines) + tail, |lines|, n) == lines
  {
    var raw, back := Serialise(lines) + tail, Lines(Serialise(lines) + tail, |lines|, n);
    SerialiseLength(lines, n);
    forall y | 0 <= y < |lines|
      ensures back[y] == lines[y]
    {
      LineOfSerialise(lines, n, tail, y);
      LinesIndex(raw, |lines|, n, y);
    }
    assert back == lines;
  }

  lemma PackedLine(raw: seq<Byte>, at: nat, n: nat)
    requires at + (n + 1) <= |raw|
    ensures var line := LineAt(raw, at, n);
            |line.bytes| == n && [line.filter] + line.bytes == raw[at..at + (n + 1)]
  {
  }

  lemma LinesFull(raw: seq<Byte>, h: nat, n: nat)
    requires Span(h, n + 1) <= |raw|
    ensures Full(Lines(raw, h, n), n)
  {
    forall y | 0 <= y < h
      ensures |Lines(raw, h, n)[y].bytes| == n
    {
      RowAtInside(raw, y, h, n + 1);
      PackedLine(raw, Span(y, n + 1), n);
      LinesIndex(raw, h, n, y);
    }
  }

  lemma PackedIsCut(raw: seq<Byte>, h: nat, n: nat)
    requires Span(h, n + 1) <= |raw|
    ensures Packed(Lines(raw, h, n)) == Cut(raw, h, n + 1)
  {
    var packed, cut := Packed(Lines(raw, h, n)), Cut(raw, h, n + 1);
    forall y | 0 <= y < h
      ensures packed[y] == cut[y]
    {
      RowAtInside(raw, y, h, n + 1);
      PackedLine(raw, Span(y, n + 1), n);
    }
  }

  /** A stream long enough for h rows is the stream of its scanlines, up to surplus bytes. */
  lemma {:induction false} SerialiseLines(raw: seq<Byte>, h: nat, n: nat)
    requires Span(h, n + 1) <= |raw|
    ensures Full(Lines(raw, h, n), n)
    ensures Serialise(Lines(raw, h, n)) == raw[..Span(h, n + 1)]
  {
    LinesFull(raw, h, n);
    PackedIsCut(raw, h, n);
    FlattenCut(raw, h, n + 1);
  }
}
