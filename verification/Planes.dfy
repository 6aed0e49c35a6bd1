/** The four byte planes of RGBA data: the reader works at distance 4, each plane at distance 1. */
module Planes {
  import opened Bytes
  import opened Predictor
  import opened Raster
  import opened Filters

  /** Every fourth byte of s, from byte k on. */
  function Plane(k: nat, s: seq<Byte>): (p: seq<Byte>)
    requires k < 4
    ensures |p| == |s| / 4
  {
    seq(|s| / 4, i requires 0 <= i < |s| / 4 => s[4 * i + k])
  }

  /** Four equally long planes, put back together byte by byte. */
  function Interleave(planes: seq<seq<Byte>>, n: nat): (s: seq<Byte>)
    requires |planes| == 4 && Uniform(planes, n)
    ensures |s| == 4 * n
  {
    seq(4 * n, j requires 0 <= j < 4 * n => planes[j % 4][j / 4])
  }

  function AllPlanes(s: seq<Byte>): (planes: seq<seq<Byte>>)
    ensures |planes| == 4 && Uniform(planes, |s| / 4)
  {
    [Plane(0, s), Plane(1, s), Plane(2, s), Plane(3, s)]
  }

  function PlaneRows(k: nat, rows: seq<seq<Byte>>): (ps: seq<seq<Byte>>)
    requires k < 4
    ensures |ps| == |rows|
  {
    seq(|rows|, y requires 0 <= y < |rows| => Plane(k, rows[y]))
  }

  /** A scanline's filter type over one plane of its filtered bytes. */
  function PlaneLine(k: nat, line: Scanline): Scanline
    requires k < 4
  {
    Scanline(line.filter, Plane(k, line.bytes))
  }

  function PlaneLines(k: nat, lines: seq<Scanline>): (ps: seq<Scanline>)
    requires k < 4
    ensures |ps| == |lines|
  {
    seq(|lines|, y requires 0 <= y < |lines| => PlaneLine(k, lines[y]))
  }

  // ----- planes and interleaving

  /** Taking a sequence apart into planes and interleaving them gives the sequence back. */
  lemma InterleavePlanes(s: seq<Byte>)
    requires |s| % 4 == 0
    ensures Interleave(AllPlanes(s), |s| / 4) == s
  {
    var back := Interleave(AllPlanes(s), |s| / 4);
    forall j | 0 <= j < |s|
      ensures back[j] == s[j]
    {
      assert AllPlanes(s)[j % 4] == Plane(j % 4, s);
      assert 4 * (j / 4) + j % 4 == j;
    }
  }

  lemma PlaneAt(k: nat, s: seq<Byte>, i: int)
    requires k < 4 && |s| % 4 == 0 && i <= |s| / 4
    ensures At(Plane(k, s), i) == At(s, 4 * i + k)
  {
  }

  lemma PlaneConcat(k: nat, s: seq<Byte>, t: seq<Byte>)
    requires k < 4 && |s| % 4 == 0
    ensures Plane(k, s + t) == Plane(k, s) + Plane(k, t)
  {
    var whole, parts := Plane(k, s + t), Plane(k, s) + Plane(k, t);
    forall i | 0 <= i < |whole|
      ensures whole[i] == parts[i]
    {
      if i >= |s| / 4 {
        assert 4 * i + k - |s| == 4 * (i - |s| / 4) + k;
      }
    }
  }

  lemma PlaneRowsSnoc(k: nat, rows: seq<seq<Byte>>, row: seq<Byte>)
    requires k < 4
    ensures PlaneRows(k, rows + [row]) == PlaneRows(k, rows) + [Plane(k, row)]
  {
  }

  lemma {:induction false} PlaneOfMore(k: nat, rows: seq<seq<Byte>>, row: seq<Byte>)
    requires k < 4 && |Flatten(rows)| % 4 == 0
    requires Plane(k, Flatten(rows)) == Flatten(PlaneRows(k, rows))
    ensures Plane(k, Flatten(rows + [row])) == Flatten(PlaneRows(k, rows + [row]))
  {
    FlattenSnoc(rows, row);
    PlaneConcat(k, Flatten(rows), row);
    PlaneRowsSnoc(k, rows, row);
    FlattenSnoc(PlaneRows(k, rows), Plane(k, row));
  }

  /** A plane of the flat image is the flat image of the row planes. */
  lemma {:induction false} PlaneOfFlatten(k: nat, rows: seq<seq<Byte>>, w: nat)
    requires k < 4 && Uniform(rows, 4 * w)
    ensures |Flatten(rows)| % 4 == 0
    ensures Plane(k, Flatten(rows)) == Flatten(PlaneRows(k, rows))
  {
    if rows == [] {
    } else {
      var y := |rows| - 1;
      PlaneOfFlatten(k, rows[..y], w);
      PlaneOfMore(k, rows[..y], rows[y]);
      InitLast(rows);
    }
  }

  // ----- planes and filters

  lemma PlaneGuess(k: nat, rule: Rule, row: seq<Byte>, prev: seq<Byte>, i: nat)
    requires k < 4 && |row| == |prev| && |row| % 4 == 0 && i < |row| / 4
    ensures Guess(rule, 1, Plane(k, row), Plane(k, prev), i) == Guess(rule, 4, row, prev, 4 * i + k)
  {
    PlaneAt(k, row, i - 1);
    PlaneAt(k, prev, i);
    PlaneAt(k, prev, i - 1);
    assert 4 * (i - 1) + k == 4 * i + k - 4;
  }

  /** Filtering commutes with taking a plane. */
  lemma PlaneOfFilterRow(k: nat, rule: Rule, row: seq<Byte>, prev: seq<Byte>)
    requires k < 4 && |row| == |prev| && |row| % 4 == 0
    ensures Plane(k, FilterRow(rule, 4, row, prev)) == FilterRow(rule, 1, Plane(k, row), Plane(k, prev))
  {
    var here, there := Plane(k, FilterRow(rule, 4, row, prev)), FilterRow(rule, 1, Plane(k, row), Plane(k, prev));
    forall i | 0 <= i < |row| / 4
      ensures here[i] == there[i]
    {
      PlaneGuess(k, rule, row, prev, i);
    }
  }

  /** A plane of the row rebuilt at distance 4 is the plane rebuilt on its own at distance 1. */
  lemma {:induction false} PlaneOfReconRow(k: nat, rule: Rule, filt: seq<Byte>, prev: seq<Byte>)
    requires k < 4 && |filt| == |prev| && |filt| % 4 == 0
    ensures Plane(k, ReconRow(rule, 4, filt, prev)) == ReconRow(rule, 1, Plane(k, filt), Plane(k, prev))
  {
    var row := ReconRow(rule, 4, filt, prev);
    FilterReconRow(rule, 4, filt, prev);
    PlaneOfFilterRow(k, rule, row, prev);
    ReconFilterRow(rule, 1, Plane(k, row), Plane(k, prev));
  }

  lemma PlaneOfReconLine(k: nat, line: Scanline, prev: seq<Byte>)
    requires k < 4 && |line.bytes| == |prev| && |prev| % 4 == 0
    ensures Plane(k, ReconLine(4, line, prev)) == ReconLine(1, PlaneLine(k, line), Plane(k, prev))
  {
    PlaneOfReconRow(k, RuleOf(line.filter), line.bytes, prev);
  }

  lemma PlaneLinesSnoc(k: nat, lines: seq<Scanline>, line: Scanline)
    requires k < 4
    ensures PlaneLines(k, lines + [line]) == PlaneLines(k, lines) + [PlaneLine(k, line)]
  {
  }

  lemma PlaneAbove(k: nat, rows: seq<seq<Byte>>, y: nat, w: nat)
    requires k < 4 && y <= |rows|
    ensures Plane(k, Above(rows, y, 4 * w)) == Above(PlaneRows(k, rows), y, w)
  {
    if y == 0 {
      assert Plane(k, Zeros(4 * w)) == Zeros(w);
    }
  }

  lemma {:induction false} PlaneRowsGrow(k: nat, w: nat, lines: seq<Scanline>, line: Scanline)
    requires k < 4
    ensures var rows := Reconstruct(4, 4 * w, lines);
            PlaneRows(k, Reconstruct(4, 4 * w, lines + [line]))
            == PlaneRows(k, rows) + [Plane(k, ReconLine(4, line, Above(rows, |lines|, 4 * w)))]
  {
    var rows := Reconstruct(4, 4 * w, lines);
    ReconstructSnoc(4, 4 * w, lines, line);
    PlaneRowsSnoc(k, rows, ReconLine(4, line, Above(rows, |lines|, 4 * w)));
  }

  lemma {:induction false} PlaneLinesGrow(k: nat, w: nat, lines: seq<Scanline>, line: Scanline)
    requires k < 4
    ensures var planes := Reconstruct(1, w, PlaneLines(k, lines));
            Reconstruct(1, w, PlaneLines(k, lines + [line]))
            == planes + [ReconLine(1, PlaneLine(k, line), Above(planes, |lines|, w))]
  {
    PlaneLinesSnoc(k, lines, line);
    ReconstructSnoc(1, w, PlaneLines(k, lines), PlaneLine(k, line));
  }

  lemma PlaneOfNextLine(k: nat, w: nat, rows: seq<seq<Byte>>, line: Scanline)
    requires k < 4 && Uniform(rows, 4 * w) && |line.bytes| == 4 * w
    ensures Plane(k, ReconLine(4, line, Above(rows, |rows|, 4 * w)))
            == ReconLine(1, PlaneLine(k, line), Above(PlaneRows(k, rows), |rows|, w))
  {
    PlaneAbove(k, rows, |rows|, w);
    PlaneOfReconLine(k, line, Above(rows, |rows|, 4 * w));
  }

  lemma {:induction false} PlaneOfNextRow(k: nat, w: nat, lines: seq<Scanline>, line: Scanline)
    requires k < 4 && Full(lines, 4 * w) && |line.bytes| == 4 * w
    requires PlaneRows(k, Reconstruct(4, 4 * w, lines)) == Reconstruct(1, w, PlaneLines(k, lines))
    ensures PlaneRows(k, Reconstruct(4, 4 * w, lines + [line])) == Reconstruct(1, w, PlaneLines(k, lines + [line]))
  {
    ReconstructUniform(4, 4 * w, lines);
    PlaneRowsGrow(k, w, lines, line);
    PlaneLinesGrow(k, w, lines, line);
    PlaneOfNextLine(k, w, Reconstruct(4, 4 * w, lines), line);
  }

  /** One plane of the whole image is rebuilt from that plane of the filtered bytes alone. */
  lemma {:induction false} PlaneOfReconstruct(k: nat, w: nat, lines: seq<Scanline>)
    requires k < 4 && Full(lines, 4 * w)
    ensures PlaneRows(k, Reconstruct(4, 4 * w, lines)) == Reconstruct(1, w, PlaneLines(k, lines))
  {
    if lines == [] {
    } else {
      var y := |lines| - 1;
      PlaneOfReconstruct(k, w, lines[..y]);
      PlaneOfNextRow(k, w, lines[..y], lines[y]);
      InitLast(lines);
    }
  }

  /** Two streams that agree on the filter types and on one plane of filtered bytes rebuild to the same plane. */
  lemma {:induction false} PlaneIndependence(k: nat, w: nat, lines: seq<Scanline>, others: seq<Scanline>)
    requires k < 4 && Full(lines, 4 * w) && Full(others, 4 * w)
    requires PlaneLines(k, lines) == PlaneLines(k, others)
    ensures PlaneRows(k, Reconstruct(4, 4 * w, lines)) == PlaneRows(k, Reconstruct(4, 4 * w, others))
  {
    PlaneOfReconstruct(k, w, lines);
    PlaneOfReconstruct(k, w, others);
  }

  /** Row y of plane k, rebuilt on its own at distance 1. */
  function PlaneAlone(k: nat, w: nat, lines: seq<Scanline>, y: nat): seq<Byte>
    requires k < 4 && y < |lines|
  {
    Reconstruct(1, w, PlaneLines(k, lines))[y]
  }

  lemma {:induction false} PlaneOfRow(k: nat, w: nat, lines: seq<Scanline>, y: nat)
    requires k < 4 && Full(lines, 4 * w) && y < |lines|
    ensures PlaneAlone(k, w, lines, y) == Plane(k, Reconstruct(4, 4 * w, lines)[y])
  {
    PlaneOfReconstruct(k, w, lines);
    assert PlaneRows(k, Reconstruct(4, 4 * w, lines))[y] == Plane(k, Reconstruct(4, 4 * w, lines)[y]);
  }

  lemma PlanesOfRow(row: seq<Byte>, planes: seq<seq<Byte>>, w: nat)
    requires |row| == 4 * w && |planes| == 4
    requires forall k :: 0 <= k < 4 ==> planes[k] == Plane(k, row)
    ensures Uniform(planes, w) && row == Interleave(planes, w)
  {
    assert planes == AllPlanes(row);
    InterleavePlanes(row);
  }

  /** Channel separation: rebuilding at distance 4 is rebuilding each of the four planes at distance 1, interleaved. */
  lemma {:induction false} ChannelSeparation(w: nat, lines: seq<Scanline>, y: nat, planes: seq<seq<Byte>>)
    requires Full(lines, 4 * w) && y < |lines|
    requires |planes| == 4 && forall k :: 0 <= k < 4 ==> planes[k] == PlaneAlone(k, w, lines, y)
    ensures Uniform(planes, w) && Reconstruct(4, 4 * w, lines)[y] == Interleave(planes, w)
  {
    var row := Reconstruct(4, 4 * w, lines)[y];
    ReconstructUniform(4, 4 * w, lines);
    forall k | 0 <= k < 4
      ensures planes[k] == Plane(k, row)
    {
      PlaneOfRow(k, w, lines, y);
    }
    PlanesOfRow(row, planes, w);
  }
}
