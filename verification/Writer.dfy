/** Filtering a gray image row by row, each row with its cheapest filter, as write_gray does. */
module Writer {
  import opened Bytes
  import opened Predictor
  import opened Raster
  import opened Filters
  import Reader

  // ----- what the loops compute

  /** A filtered byte costs its distance to zero mod 256. */
  function Cost(v: Byte): nat {
    if v < 128 then v else 256 - v
  }

  function Score(row: seq<Byte>): nat {
    if row == [] then 0 else Score(row[..|row| - 1]) + Cost(row[|row| - 1])
  }

  function RowScore(f: Byte, row: seq<Byte>, prev: seq<Byte>): nat {
    Score(FilterRow(RuleOf(f), 1, row, prev))
  }

  /** The place the running minimum stops at. */
  function ArgMin(scores: seq<nat>): (k: nat)
    requires scores != []
    ensures k < |scores|
  {
    var n := |scores| - 1;
    if n == 0 then 0 else
    var k := ArgMin(scores[..n]);
    if scores[n] < scores[k] then n else k
  }

  /** What each of the five filters scores on a row. */
  function Scores(row: seq<Byte>, prev: seq<Byte>): (scores: seq<nat>)
    ensures |scores| == 5
  {
    seq(5, f requires 0 <= f < 5 => RowScore(f, row, prev))
  }

  function BestFilter(row: seq<Byte>, prev: seq<Byte>): (f: Byte)
    ensures f <= 4
  {
    ArgMin(Scores(row, prev))
  }

  /** A row under its best filter. */
  function BestLine(row: seq<Byte>, prev: seq<Byte>): Scanline {
    FilterLine(BestFilter(row, prev), 1, row, prev)
  }

  function BestFilters(rows: seq<seq<Byte>>, w: nat): (fs: seq<Byte>)
    ensures |fs| == |rows|
    ensures forall y :: 0 <= y < |fs| ==> fs[y] <= 4
  {
    seq(|rows|, y requires 0 <= y < |rows| => BestFilter(rows[y], Above(rows, y, w)))
  }

  /** The scanlines written for an image: each row under its best filter. */
  function GreedyLines(rows: seq<seq<Byte>>, w: nat): (lines: seq<Scanline>)
    ensures |lines| == |rows|
  {
    FilterImage(BestFilters(rows, w), 1, w, rows)
  }

  /** The raw stream for the first h * w bytes of a gray image; reading past its end is an error. */
  function GrayStream(gray: seq<Byte>, h: nat, w: nat): Result<seq<Byte>> {
    if Span(h, w) <= |gray| then Ok(Serialise(GreedyLines(Cut(gray, h, w), w))) else Err(IndexError)
  }

  // ----- the loops

  /** The writer's copy of the Paeth predictor. */
  method PredictPaeth(a: Byte, b: Byte, c: Byte) returns (pr: Byte)
    ensures pr == Paeth(a, b, c)
  {
    var p := a as int + b - c;
    var pa, pb, pc := Abs(p - a), Abs(p - b), Abs(p - c);
    if pa <= pb && pa <= pc {
      pr := a;
    } else if pb <= pc {
      pr := b;
    } else {
      pr := c;
    }
  }

  /** The five-way choice inside the innermost loop. */
  method FilteredByte(f: Byte, v: Byte, a: Byte, b: Byte, c: Byte) returns (e: Byte)
    requires f <= 4
    ensures e == Minus(v, Predict(f, a, b, c))
    ensures Encoded(f, e, v, a, b, c)
  {
    if f == 0 {
      e := v;
    } else if f == 1 {
      e := (v as int - a) % 256;
    } else if f == 2 {
      e := (v as int - b) % 256;
    } else if f == 3 {
      e := (v as int - (a as int + b) / 2) % 256;
    } else {
      var pr := PredictPaeth(a, b, c);
      e := (v as int - pr) % 256;
    }
    PlusMinusExactly(f, e, v, a, b, c);
  }

  lemma CandidateByte(f: Byte, line: seq<Byte>, prev: seq<Byte>, x: nat, a: Byte, b: Byte, c: Byte)
    requires x < |line| <= |prev|
    requires a == At(line, x - 1) && b == prev[x] && c == At(prev, x - 1)
    ensures FilterRow(RuleOf(f), 1, line, prev)[x] == Minus(line[x], Predict(f, a, b, c))
  {
  }

  lemma ExtendPrefix(s: seq<Byte>, goal: seq<Byte>, x: nat, e: Byte)
    requires x < |s| && x < |goal| && s[..x] == goal[..x] && e == goal[x]
    ensures s[x := e][..x + 1] == goal[..x + 1]
  {
    assert s[x := e][..x] == s[..x];
    assert s[x := e][..x + 1] == s[..x] + [e] && goal[..x + 1] == goal[..x] + [goal[x]];
  }

  /** One candidate row; `ok` is false when the line has fewer than `width` bytes. */
  method Candidate(f: Byte, line: seq<Byte>, prev: seq<Byte>, width: nat) returns (ok: bool, cand: array<Byte>)
    requires |line| <= width == |prev| && f <= 4
    ensures ok <==> |line| == width
    ensures ok ==> cand[..] == FilterRow(RuleOf(f), 1, line, prev)
    ensures fresh(cand)
  {
    ghost var goal := FilterRow(RuleOf(f), 1, line, prev);
    cand := new Byte[width](_ => 0);
    for x := 0 to width
      invariant x <= |line|
      invariant cand[..][..x] == goal[..x]
    {
      if x >= |line| {
        return false, cand;
      }
      var a := if x >= 1 then line[x - 1] else 0;
      var b := prev[x];
      var c := if x >= 1 then prev[x - 1] else 0;
      var e := FilteredByte(f, line[x], a, b, c);
      CandidateByte(f, line, prev, x, a, b, c);
      ghost var was := cand[..];
      cand[x] := e;
      assert cand[..] == was[x := e];
      ExtendPrefix(was, goal, x, e);
    }
    assert cand[..] == cand[..][..width] && goal == goal[..width];
    ok := true;
  }

  /** How the running minimum takes in one more score. */
  lemma {:induction false} ArgMinStep(seen: seq<nat>, score: nat)
    ensures ArgMin(seen + [score])
            == if seen == [] then 0 else if score < seen[ArgMin(seen)] then |seen| else ArgMin(seen)
  {
    assert (seen + [score])[..|seen|] == seen;
  }

  lemma {:induction false} SeenStep(scores: seq<nat>, seen: seq<nat>, f: nat, score: nat)
    requires f < |scores| && seen == scores[..f] && score == scores[f]
    ensures seen + [score] == scores[..f + 1]
    ensures ArgMin(seen + [score])
            == if f == 0 then 0 else if score < seen[ArgMin(seen)] then f else ArgMin(seen)
  {
    ArgMinStep(seen, score);
  }

  lemma ScoresAt(g: Byte, row: seq<Byte>, prev: seq<Byte>)
    requires g <= 4
    ensures Scores(row, prev)[g] == RowScore(g, row, prev)
  {
  }

  /** Try all five filters on a row and keep the first with the least score. */
  method ChooseFilter(line: seq<Byte>, prev: seq<Byte>, width: nat) returns (r: Result<Scanline>)
    requires |line| <= width == |prev|
    ensures r == if |line| == width then Ok(BestLine(line, prev)) else Err(IndexError)
  {
    ghost var scores, seen: seq<nat> := Scores(line, prev), [];
    var best: array?<Byte>, bestScore, bestF := null, 0, 0;
    for f := 0 to 5
      invariant best == null <==> f == 0
      invariant f > 0 ==> |line| == width
      invariant |seen| == f && seen == scores[..f]
      invariant bestF < 5
      invariant f > 0 ==> bestF == ArgMin(seen) && bestScore == seen[bestF]
      invariant best != null ==> best[..] == FilterRow(RuleOf(bestF), 1, line, prev)
    {
      var ok, cand := Candidate(f, line, prev, width);
      if !ok {
        return Err(IndexError);
      }
      var score := Score(cand[..]);
      ScoresAt(f, line, prev);
      SeenStep(scores, seen, f, score);
      seen := seen + [score];
      if best == null || score < bestScore {
        best, bestScore, bestF := cand, score, f;
      }
    }
    assert seen == scores;
    return Ok(Scanline(bestF, best[..]));
  }

  // ----- the loop over the rows

  lemma BestFiltersPrefix(rows: seq<seq<Byte>>, w: nat, y: nat)
    requires y <= |rows|
    ensures BestFilters(rows, w)[..y] == BestFilters(rows[..y], w)
  {
    var whole, part := BestFilters(rows, w), BestFilters(rows[..y], w);
    forall i | 0 <= i < y
      ensures whole[i] == part[i]
    {
      assert Above(rows, i, w) == Above(rows[..y], i, w);
    }
  }

  lemma GreedySnoc(rows: seq<seq<Byte>>, row: seq<Byte>, w: nat)
    ensures GreedyLines(rows + [row], w) == GreedyLines(rows, w) + [BestLine(row, Above(rows, |rows|, w))]
  {
    var y, more := |rows|, rows + [row];
    var lines := GreedyLines(more, w);
    assert more[..y] == rows;
    BestFiltersPrefix(more, w, y);
    FilterImagePrefix(BestFilters(more, w), 1, w, more, y);
    assert Above(more, y, w) == Above(rows, y, w);
    assert lines[y] == BestLine(row, Above(rows, y, w));
    InitLast(lines);
  }

  lemma StreamGrows(rows: seq<seq<Byte>>, row: seq<Byte>, w: nat)
    ensures var line := BestLine(row, Above(rows, |rows|, w));
            Serialise(GreedyLines(rows + [row], w)) == Serialise(GreedyLines(rows, w)) + [line.filter] + line.bytes
  {
    GreedySnoc(rows, row, w);
    SerialiseSnoc(GreedyLines(rows, w), BestLine(row, Above(rows, |rows|, w)));
  }

  lemma CutGrows(gray: seq<Byte>, y: nat, at: nat, w: nat, rows: seq<seq<Byte>>, line: seq<Byte>)
    requires at == Span(y, w) && rows == Cut(gray, y, w) && line == Slice(gray, at, at + w)
    ensures rows + [line] == Cut(gray, y + 1, w)
  {
    CutSnoc(gray, y, w);
  }

  /** An image that gives out inside row y is too short for every greater height. */
  lemma {:induction false} ImageEnds(gray: seq<Byte>, y: nat, h: nat, w: nat)
    requires y < h && |gray| < Span(y, w) + w
    ensures GrayStream(gray, h, w) == Err(IndexError)
  {
    SpanOrder(y, h, w);
  }

  method FilterGray(gray: seq<Byte>, h: nat, w: nat) returns (r: Result<seq<Byte>>)
    ensures r == GrayStream(gray, h, w)
  {
    var raw: seq<Byte> := [];
    var prev := Zeros(w);
    var at := 0;
    ghost var rows: seq<seq<Byte>> := [];
    for y := 0 to h
      invariant |rows| == y && rows == Cut(gray, y, w)
      invariant at == Span(y, w) <= |gray|
      invariant |prev| == w && prev == Above(rows, y, w)
      invariant raw == Serialise(GreedyLines(rows, w))
    {
      var line := Slice(gray, at, at + w);
      var best := ChooseFilter(line, prev, w);
      if best.Err? {
        ImageEnds(gray, y, h, w);
        return Err(best.error);
      }
      CutGrows(gray, y, at, w, rows, line);
      StreamGrows(rows, line, w);
      raw := raw + [best.value.filter];
      raw := raw + best.value.bytes;
      prev := line;
      at := at + w;
      rows := rows + [line];
    }
    return Ok(raw);
  }

  // ----- what it means

  /** A byte costs the one number up to 128 that it stands for mod 256, with either sign. */
  lemma CostIsSignedMagnitude(v: Byte, n: int)
    ensures n == Cost(v) <==> 0 <= n <= 128 && ((v - n) % 256 == 0 || (v + n) % 256 == 0)
  {
  }

  /** The score of two stretches is the sum of their scores. */
  lemma {:induction false} ScoreOfBoth(s: seq<Byte>, t: seq<Byte>)
    ensures Score(s + t) == Score(s) + Score(t)
  {
    if t == [] {
      assert s + t == s;
    } else {
      var m := |t| - 1;
      ScoreOfBoth(s, t[..m]);
      assert (s + t)[..|s + t| - 1] == s + t[..m];
    }
  }

  /** So the score is a sum, of what the single bytes cost. */
  lemma {:induction false} ScoreIsSum(s: seq<Byte>, v: Byte, t: seq<Byte>)
    ensures Score([]) == 0 && Score([v]) == Cost(v)
    ensures Score(s + [v] + t) == Score(s) + Cost(v) + Score(t)
  {
    assert [v][..0] == [];
    ScoreOfBoth(s, [v]);
    ScoreOfBoth(s + [v], t);
  }

  lemma {:induction false} ScoreOfFour(a: Byte, b: Byte, c: Byte, d: Byte)
    ensures Score([a, b, c, d]) == Cost(a) + Cost(b) + Cost(c) + Cost(d)
  {
    ScoreIsSum([], a, []);
    ScoreIsSum([a], b, []);
    ScoreIsSum([a, b], c, []);
    ScoreIsSum([a, b, c], d, []);
    assert [a] + [b] + [] == [a, b] && [a, b] + [c] + [] == [a, b, c] && [a, b, c] + [d] + [] == [a, b, c, d];
  }

  /** Every candidate, chosen or not, encodes the row with its neighbours in the unfiltered rows. */
  lemma CandidateEncodes(f: Byte, row: seq<Byte>, prev: seq<Byte>, x: nat)
    requires x < |row| <= |prev|
    ensures var l, c := if x >= 1 then row[x - 1] else 0, if x >= 1 then prev[x - 1] else 0;
            Encoded(f, FilterRow(RuleOf(f), 1, row, prev)[x], row[x], l, prev[x], c)
  {
    var l, c := if x >= 1 then row[x - 1] else 0, if x >= 1 then prev[x - 1] else 0;
    CandidateByte(f, row, prev, x, l, prev[x], c);
    PlusMinusExactly(f, FilterRow(RuleOf(f), 1, row, prev)[x], row[x], l, prev[x], c);
  }

  /** The stream of an image is read back as its scanlines, and these rebuild to the image. */
  lemma {:induction false} GreedyRoundTrip(rows: seq<seq<Byte>>, w: nat, tail: seq<Byte>)
    requires Uniform(rows, w)
    ensures |Serialise(GreedyLines(rows, w))| == Span(|rows|, w + 1)
    ensures Lines(Serialise(GreedyLines(rows, w)) + tail, |rows|, w) == GreedyLines(rows, w)
    ensures Reconstruct(1, w, GreedyLines(rows, w)) == rows
  {
    assert Full(GreedyLines(rows, w), w);
    LinesOfSerialise(GreedyLines(rows, w), w, tail);
    ReconstructFilterImage(BestFilters(rows, w), 1, w, rows);
  }

  lemma GreedyType(rows: seq<seq<Byte>>, w: nat, y: nat)
    requires y < |rows|
    ensures GreedyLines(rows, w)[y].filter == BestFilters(rows, w)[y]
  {
  }

  /**
   * Whatever the heuristic picks, the stream rebuilds to the image it was made from; it has w + 1
   * bytes for every row, the first of which is a filter type in 0..4.
   */
  lemma {:induction false} RasterRoundTrip(gray: seq<Byte>, h: nat, w: nat, raw: seq<Byte>)
    requires GrayStream(gray, h, w) == Ok(raw)
    ensures |raw| == Span(h, w + 1)
    ensures forall y :: 0 <= y < h ==> Lines(raw, h, w)[y].filter <= 4
    ensures Flatten(Reconstruct(1, w, Lines(raw, h, w))) == gray[..Span(h, w)]
  {
    var rows := Cut(gray, h, w);
    CutUniform(gray, h, w);
    FlattenCut(gray, h, w);
    GreedyRoundTrip(rows, w, []);
    assert raw + [] == raw;
    forall y | 0 <= y < h
      ensures Lines(raw, h, w)[y].filter <= 4
    {
      GreedyType(rows, w, y);
    }
  }

  /** What is written meets the equations at every byte of the image, at distance 1, with zeros around the image. */
  lemma {:induction false} StreamMeetsRecurrence(gray: seq<Byte>, h: nat, w: nat, raw: seq<Byte>)
    requires GrayStream(gray, h, w) == Ok(raw)
    ensures Reader.Recurrence(raw, gray[..Span(h, w)], h, w, 1)
  {
    RasterRoundTrip(gray, h, w, raw);
    Reader.ReadableWhenFull(raw, h, w, 1);
    Reader.DecoderMeetsRecurrence(raw, gray[..Span(h, w)], h, w, 1);
  }

  // ----- the choice on one row

  lemma SameRow(p: Rule, q: Rule, row: seq<Byte>, prev: seq<Byte>)
    requires forall x :: 0 <= x < |row| ==> Guess(p, 1, row, prev, x) == Guess(q, 1, row, prev, x)
    ensures FilterRow(p, 1, row, prev) == FilterRow(q, 1, row, prev)
  {
    var here, there := FilterRow(p, 1, row, prev), FilterRow(q, 1, row, prev);
    forall x | 0 <= x < |row|
      ensures here[x] == there[x]
    {
      assert Guess(p, 1, row, prev, x) == Guess(q, 1, row, prev, x);
    }
  }

  /** k is the first place where the least of the scores stands. */
  ghost predicate FirstLeast(k: nat, scores: seq<nat>) {
    && k < |scores|
    && (forall g :: 0 <= g < |scores| ==> scores[k] <= scores[g])
    && (forall g :: 0 <= g < k ==> scores[k] < scores[g])
  }

  lemma {:induction false} ArgMinIsFirstLeast(scores: seq<nat>)
    requires scores != []
    ensures FirstLeast(ArgMin(scores), scores)
  {
    var n := |scores| - 1;
    if n == 0 {
    } else {
      ArgMinIsFirstLeast(scores[..n]);
      assert forall g :: 0 <= g < n ==> scores[..n][g] == scores[g];
    }
  }

  /** f is the lowest-numbered of the five filters with the least score on this row. */
  ghost predicate Cheapest(f: Byte, row: seq<Byte>, prev: seq<Byte>) {
    && f <= 4
    && (forall g: Byte :: g <= 4 ==> RowScore(f, row, prev) <= RowScore(g, row, prev))
    && (forall g: Byte :: g < f ==> RowScore(f, row, prev) < RowScore(g, row, prev))
  }

  lemma LeastIsCheapest(f: Byte, row: seq<Byte>, prev: seq<Byte>)
    ensures FirstLeast(f, Scores(row, prev)) <==> Cheapest(f, row, prev)
  {
    var scores := Scores(row, prev);
    forall g: Byte | g <= 4
      ensures scores[g] == RowScore(g, row, prev)
    {
      ScoresAt(g, row, prev);
    }
    if Cheapest(f, row, prev) {
      forall g | 0 <= g < 5
        ensures scores[f] <= scores[g] && (g < f ==> scores[f] < scores[g])
      {
        var b: Byte := g;
        assert RowScore(f, row, prev) <= RowScore(b, row, prev);
      }
    }
  }

  lemma LeastIsUnique(j: nat, k: nat, scores: seq<nat>)
    requires FirstLeast(j, scores) && FirstLeast(k, scores)
    ensures j == k
  {
    assert scores[j] == scores[k];
  }

  /** On every row the pick is the one filter that is cheapest and, among equals, lowest-numbered. */
  lemma PickIsCheapest(f: Byte, row: seq<Byte>, prev: seq<Byte>)
    ensures f == BestFilter(row, prev) <==> Cheapest(f, row, prev)
  {
    var best := BestFilter(row, prev);
    ArgMinIsFirstLeast(Scores(row, prev));
    LeastIsCheapest(best, row, prev);
    LeastIsCheapest(f, row, prev);
    if Cheapest(f, row, prev) {
      LeastIsUnique(f, best, Scores(row, prev));
    }
  }

  lemma OddTypeScores(f: Byte, row: seq<Byte>, prev: seq<Byte>)
    requires f > 4
    ensures RowScore(f, row, prev) == RowScore(0, row, prev)
  {
    forall x | 0 <= x < |row|
      ensures Guess(RuleOf(f), 1, row, prev, x) == Guess(RuleOf(0), 1, row, prev, x)
    {
    }
    SameRow(RuleOf(f), RuleOf(0), row, prev);
  }

  /** No filter type byte at all, not even one above 4, beats the best of the five. */
  lemma BestBeatsAll(f: Byte, row: seq<Byte>, prev: seq<Byte>)
    ensures RowScore(BestFilter(row, prev), row, prev) <= RowScore(f, row, prev)
  {
    var best, g: Byte := BestFilter(row, prev), if f > 4 then 0 else f;
    PickIsCheapest(best, row, prev);
    assert RowScore(best, row, prev) <= RowScore(g, row, prev);
    if f > 4 {
      OddTypeScores(f, row, prev);
    }
  }

  lemma {:induction false} LineScore(f: Byte, row: seq<Byte>, prev: seq<Byte>)
    ensures Score(FilterLine(f, 1, row, prev).bytes) == RowScore(f, row, prev)
  {
  }

  lemma FlatRow(f: Byte, row: seq<Byte>, prev: seq<Byte>)
    requires f <= 4 && row == [17, 17, 17, 17] && prev == [0, 0, 0, 0]
    ensures FilterRow(RuleOf(f), 1, row, prev)
            == if f == 0 || f == 2 then row else if f == 3 then [17, 9, 9, 9] else [17, 0, 0, 0]
  {
  }

  lemma {:induction false} FlatRowScore(f: Byte, row: seq<Byte>, prev: seq<Byte>)
    requires f <= 4 && row == [17, 17, 17, 17] && prev == [0, 0, 0, 0]
    ensures RowScore(f, row, prev) == if f == 0 || f == 2 then 68 else if f == 3 then 44 else 17
  {
    FlatRow(f, row, prev);
    ScoreOfFour(17, 17, 17, 17);
    ScoreOfFour(17, 9, 9, 9);
    ScoreOfFour(17, 0, 0, 0);
  }

  lemma {:induction false} FlatRowCheapest(row: seq<Byte>, prev: seq<Byte>)
    requires row == [17, 17, 17, 17] && prev == [0, 0, 0, 0]
    ensures Cheapest(1, row, prev)
  {
    FlatRowScore(1, row, prev);
    forall g: Byte | g <= 4
      ensures RowScore(1, row, prev) <= RowScore(g, row, prev)
      ensures g < 1 ==> RowScore(1, row, prev) < RowScore(g, row, prev)
    {
      FlatRowScore(g, row, prev);
    }
  }

  /** A first row of four bytes 17: the scores are 68, 17, 68, 44 and 17, so it is written under Sub. */
  lemma {:induction false} FlatRowExample(row: seq<Byte>, prev: seq<Byte>)
    requires row == [17, 17, 17, 17] && prev == [0, 0, 0, 0]
    ensures BestLine(row, prev) == Scanline(1, [17, 0, 0, 0])
  {
    FlatRowCheapest(row, prev);
    PickIsCheapest(1, row, prev);
    FlatRow(1, row, prev);
  }

  // ----- the choice on the whole image

  function TotalScore(lines: seq<Scanline>): nat {
    if lines == [] then 0 else TotalScore(lines[..|lines| - 1]) + Score(lines[|lines| - 1].bytes)
  }

  lemma {:induction false} TotalScoreOrder(lines: seq<Scanline>, others: seq<Scanline>)
    requires |lines| == |others|
    requires forall y :: 0 <= y < |lines| ==> Score(lines[y].bytes) <= Score(others[y].bytes)
    ensures TotalScore(lines) <= TotalScore(others)
  {
    if lines == [] {
    } else {
      var k := |lines| - 1;
      assert forall y :: 0 <= y < k ==> lines[..k][y] == lines[y] && others[..k][y] == others[y];
      TotalScoreOrder(lines[..k], others[..k]);
    }
  }

  /** The filtered bytes of all rows, without their filter types, end to end. */
  function Filtered(lines: seq<Scanline>): seq<Byte> {
    if lines == [] then [] else Filtered(lines[..|lines| - 1]) + lines[|lines| - 1].bytes
  }

  /** The total is the score of all filtered bytes taken together. */
  lemma {:induction false} TotalIsScoreOfAll(lines: seq<Scanline>)
    ensures TotalScore(lines) == Score(Filtered(lines))
  {
    if lines == [] {
    } else {
      var k := |lines| - 1;
      TotalIsScoreOfAll(lines[..k]);
      ScoreOfBoth(Filtered(lines[..k]), lines[k].bytes);
    }
  }

  lemma GreedyAt(rows: seq<seq<Byte>>, w: nat, y: nat)
    requires y < |rows|
    ensures GreedyLines(rows, w)[y] == BestLine(rows[y], Above(rows, y, w))
  {
  }

  /**
   * Picking row by row is optimal overall: among all streams that rebuild to the image, with any
   * filter type bytes, none has a smaller total score (section 9.6 of RFC 2083).
   */
  lemma {:induction false} GreedyIsOptimal(rows: seq<seq<Byte>>, w: nat, others: seq<Scanline>)
    requires Reconstruct(1, w, others) == rows
    ensures TotalScore(GreedyLines(rows, w)) <= TotalScore(others)
  {
    var lines, same := GreedyLines(rows, w), FilterImage(FilterTypes(others), 1, w, rows);
    ImageBijection(1, w, others, rows);
    forall y | 0 <= y < |rows|
      ensures Score(lines[y].bytes) <= Score(others[y].bytes)
    {
      var f, prev := others[y].filter, Above(rows, y, w);
      GreedyAt(rows, w, y);
      assert others[y] == same[y] == FilterLine(f, 1, rows[y], prev);
      LineScore(f, rows[y], prev);
      LineScore(BestFilter(rows[y], prev), rows[y], prev);
      BestBeatsAll(f, rows[y], prev);
    }
    TotalScoreOrder(lines, others);
  }

  /** In particular no assignment of filter types to the rows does better. */
  lemma {:induction false} GreedyBeatsAssignments(rows: seq<seq<Byte>>, w: nat, fs: seq<Byte>)
    requires |fs| == |rows|
    ensures TotalScore(GreedyLines(rows, w)) <= TotalScore(FilterImage(fs, 1, w, rows))
  {
    ReconstructFilterImage(fs, 1, w, rows);
    GreedyIsOptimal(rows, w, FilterImage(fs, 1, w, rows));
  }

  // ----- degenerate edges

  /** A filter never wins against one with a lower number that filters the row to the same bytes. */
  lemma LowerNumberWins(low: Byte, high: Byte, row: seq<Byte>, prev: seq<Byte>)
    requires low < high
    requires forall x :: 0 <= x < |row| ==>
      Guess(RuleOf(low), 1, row, prev, x) == Guess(RuleOf(high), 1, row, prev, x)
    ensures BestFilter(row, prev) != high
  {
    SameRow(RuleOf(low), RuleOf(high), row, prev);
    assert RowScore(low, row, prev) == RowScore(high, row, prev);
    PickIsCheapest(high, row, prev);
  }

  /** Over a row of zeros Up ties with None and Paeth with Sub, so the first row never uses Up or Paeth. */
  lemma FirstRowFilter(rows: seq<seq<Byte>>, w: nat)
    requires rows != []
    ensures BestFilters(rows, w)[0] in {0, 1, 3}
  {
    LowerNumberWins(0, 2, rows[0], Zeros(w));
    LowerNumberWins(1, 4, rows[0], Zeros(w));
  }

  /** In an image one byte wide Sub ties with None and Paeth with Up, so no row uses Sub or Paeth. */
  lemma NarrowFilter(rows: seq<seq<Byte>>, y: nat)
    requires Uniform(rows, 1) && y < |rows|
    ensures BestFilters(rows, 1)[y] in {0, 2, 3}
  {
    var prev := Above(rows, y, 1);
    LowerNumberWins(0, 1, rows[y], prev);
    LowerNumberWins(2, 4, rows[y], prev);
  }
}
