/** Rows of bytes laid out one after another, as the script's flat buffers hold them. */
module Raster {
  import opened Bytes

  /** What h rows of n bytes take up. It is h * n, by addition, so that proofs stay linear. */
  function Span(h: nat, n: nat): nat {
    if h == 0 then 0 else Span(h - 1, n) + n
  }

  lemma {:induction false} SpanIsProduct(h: nat, n: nat)
    ensures Span(h, n) == h * n
  {
    if h == 0 {
    } else {
      SpanIsProduct(h - 1, n);
      assert h * n == (h - 1) * n + n;
    }
  }

  lemma {:induction false} SpanOrder(y: nat, h: nat, n: nat)
    requires y <= h
    ensures Span(y, n) <= Span(h, n)
    ensures y < h ==> Span(y, n) + n <= Span(h, n)
  {
    if y == h {
    } else {
      SpanOrder(y, h - 1, n);
    }
  }

  lemma {:induction false} SpanOfFour(h: nat, w: nat)
    ensures Span(h, 4 * w) == 4 * Span(h, w)
  {
    if h == 0 {
    } else {
      SpanOfFour(h - 1, w);
    }
  }

  ghost predicate Uniform(rows: seq<seq<Byte>>, n: nat) {
    forall y :: 0 <= y < |rows| ==> |rows[y]| == n
  }

  /** All rows, end to end. */
  function Flatten(rows: seq<seq<Byte>>): seq<Byte> {
    if rows == [] then [] else Flatten(rows[..|rows| - 1]) + rows[|rows| - 1]
  }

  /** Row y of n bytes, from its offset y * n on. */
  function RowAt(s: seq<Byte>, y: nat, n: nat): seq<Byte> {
    Slice(s, Span(y, n), Span(y, n) + n)
  }

  /** The first h rows of n bytes. */
  function Cut(s: seq<Byte>, h: nat, n: nat): (rows: seq<seq<Byte>>)
    ensures |rows| == h
  {
    seq(h, y requires 0 <= y < h => RowAt(s, y, n))
  }

  lemma CutSnoc(s: seq<Byte>, y: nat, n: nat)
    ensures Cut(s, y + 1, n) == Cut(s, y, n) + [RowAt(s, y, n)]
  {
    var more, fewer := Cut(s, y + 1, n), Cut(s, y, n);
    forall i | 0 <= i < y
      ensures more[i] == fewer[i]
    {
    }
  }

  lemma RowAtInside(s: seq<Byte>, y: nat, h: nat, n: nat)
    requires y < h && Span(h, n) <= |s|
    ensures Span(y, n) + n <= |s|
    ensures RowAt(s, y, n) == s[Span(y, n)..Span(y, n) + n]
  {
    SpanOrder(y, h, n);
  }

  lemma {:induction false} FlattenSnoc(rows: seq<seq<Byte>>, row: seq<Byte>)
    ensures Flatten(rows + [row]) == Flatten(rows) + row
  {
    assert (rows + [row])[..|rows|] == rows;
  }

  lemma {:induction false} FlattenLength(rows: seq<seq<Byte>>, n: nat)
    requires Uniform(rows, n)
    ensures |Flatten(rows)| == Span(|rows|, n)
  {
    if rows == [] {
    } else {
      FlattenLength(rows[..|rows| - 1], n);
    }
  }

  /** Row y of equally long rows sits at offset y * n of the flat buffer. */
  lemma {:induction false} FlattenRow(rows: seq<seq<Byte>>, n: nat, y: nat)
    requires Uniform(rows, n) && y < |rows|
    ensures Span(y, n) + n <= |Flatten(rows)|
    ensures Flatten(rows)[Span(y, n)..Span(y, n) + n] == rows[y]
  {
    var init, last, at := rows[..|rows| - 1], rows[|rows| - 1], Span(y, n);
    FlattenLength(init, n);
    if y == |init| {
      assert (Flatten(init) + last)[at..at + n] == last;
    } else {
      FlattenRow(init, n, y);
      TakeLeft(Flatten(init), last, at, at + n);
    }
  }

  /** Byte x of row y sits at offset y * n + x. */
  lemma {:induction false} FlattenByte(rows: seq<seq<Byte>>, n: nat, y: nat, x: nat)
    requires Uniform(rows, n) && y < |rows| && x < n
    ensures Span(y, n) + x < |Flatten(rows)|
    ensures Flatten(rows)[Span(y, n) + x] == rows[y][x]
  {
    FlattenRow(rows, n, y);
    var flat, at := Flatten(rows), Span(y, n);
    assert flat[at + x] == flat[at..at + n][x];
  }

  /** Cutting takes flat rows apart again. */
  lemma {:induction false} CutFlatten(rows: seq<seq<Byte>>, n: nat)
    requires Uniform(rows, n)
    ensures Cut(Flatten(rows), |rows|, n) == rows
  {
    var cut := Cut(Flatten(rows), |rows|, n);
    forall y | 0 <= y < |rows|
      ensures cut[y] == rows[y]
    {
      FlattenRow(rows, n, y);
    }
  }

  lemma CutUniform(s: seq<Byte>, h: nat, n: nat)
    requires Span(h, n) <= |s|
    ensures Uniform(Cut(s, h, n), n)
  {
    forall y | 0 <= y < h
      ensures |Cut(s, h, n)[y]| == n
    {
      RowAtInside(s, y, h, n);
    }
  }

  lemma {:induction false} FlattenCutStep(s: seq<Byte>, y: nat, at: nat, n: nat)
    requires at == Span(y, n) && at + n <= |s|
    requires Flatten(Cut(s, y, n)) == s[..at]
    ensures Flatten(Cut(s, y + 1, n)) == s[..at + n]
  {
    CutSnoc(s, y, n);
    FlattenSnoc(Cut(s, y, n), RowAt(s, y, n));
    TakeMore(s, at, n);
  }

  /** Flattening puts the cut rows back together. */
  lemma {:induction false} FlattenCut(s: seq<Byte>, h: nat, n: nat)
    requires Span(h, n) <= |s|
    ensures Flatten(Cut(s, h, n)) == s[..Span(h, n)]
  {
    if h == 0 {
    } else {
      var y, at := h - 1, Span(h - 1, n);
      assert Span(h, n) == at + n && y + 1 == h;
      FlattenCut(s, y, n);
      FlattenCutStep(s, y, at, n);
    }
  }
}
