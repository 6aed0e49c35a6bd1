/** The level table of quantise, over exact rationals: a step is 255 / (levels - 1). */
module Quantiser {
  import opened Bytes
  import opened Predictor

  const LEVELS := 16

  function RoundUp(n: int, d: int): int
    requires d > 0
  {
    var q, r := n / d, n % d;
    if 2 * r < d || (2 * r == d && q % 2 == 0) then q else q + 1
  }

  /** Python's round of the fraction n / d: to the nearest integer, and to the even one of two. */
  function Round(n: int, d: int): int
    requires d != 0
  {
    if d < 0 then RoundUp(-n, -d) else RoundUp(n, d)
  }

  /** The number of steps nearest to v. */
  function Steps(v: int, levels: int): int
    requires levels != 1
  {
    Round(v * (levels - 1), 255)
  }

  /** The byte nearest to k steps. */
  function Value(k: int, levels: int): int
    requires levels != 1
  {
    Round(k * 255, levels - 1)
  }

  // ----- rounding

  /** r is a nearest integer to n / d, and even if there are two. */
  ghost predicate Nearest(r: int, n: int, d: int)
    requires d > 0
  {
    2 * Abs(n - r * d) <= d && (2 * Abs(n - r * d) == d ==> r % 2 == 0)
  }

  lemma NextMultiple(q: int, d: int)
    ensures (q + 1) * d == q * d + d
  {
  }

  lemma Distance(q: int, r: int, d: int)
    requires d > 0 && q < r
    ensures r * d - q * d >= d
    ensures r >= q + 2 ==> r * d - q * d >= 2 * d
    decreases r - q
  {
    NextMultiple(r - 1, d);
    if r == q + 1 {
    } else {
      Distance(q, r - 1, d);
    }
  }

  lemma RoundUpNearest(n: int, d: int)
    requires d > 0
    ensures Nearest(RoundUp(n, d), n, d)
  {
    var q := n / d;
    assert n == q * d + n % d;
    NextMultiple(q, d);
  }

  /** Of two different integers at most one is nearest. */
  lemma NearestUnique(q: int, r: int, n: int, d: int)
    requires d > 0 && q <= r && Nearest(q, n, d) && Nearest(r, n, d)
    ensures q == r
  {
    if q < r {
      Distance(q, r, d);
    }
  }

  /** Rounding gives the one nearest integer. */
  lemma RoundIsNearest(r: int, n: int, d: int)
    requires d > 0
    ensures r == Round(n, d) <==> Nearest(r, n, d)
  {
    RoundUpNearest(n, d);
    if Nearest(r, n, d) {
      NearestUnique(Min(r, Round(n, d)), if r < Round(n, d) then Round(n, d) else r, n, d);
    }
  }

  lemma NearestMonotone(q: int, n: int, r: int, m: int, d: int)
    requires d > 0 && n <= m && Nearest(q, n, d) && Nearest(r, m, d)
    ensures q <= r
  {
    if q > r {
      var qd, rd := q * d, r * d;
      Distance(r, q, d);
      assert qd - rd == d && n == m;
      NearestUnique(r, q, n, d);
    }
  }

  lemma RoundMonotone(n: int, m: int, d: int)
    requires d > 0 && n <= m
    ensures Round(n, d) <= Round(m, d)
  {
    RoundUpNearest(n, d);
    RoundUpNearest(m, d);
    NearestMonotone(Round(n, d), n, Round(m, d), m, d);
  }

  lemma MinusTimes(r: int, d: int)
    ensures (-r) * d == -(r * d)
  {
  }

  lemma RoundOdd(n: int, d: int)
    requires d > 0
    ensures Round(-n, d) == -Round(n, d)
  {
    RoundUpNearest(n, d);
    MinusTimes(Round(n, d), d);
    RoundIsNearest(-Round(n, d), -n, d);
  }

  // ----- the table

  /** The number of steps never ties, because 255 is odd; the byte for it may. */
  lemma StepsNeverTie(v: int, levels: int)
    requires levels >= 2
    ensures 2 * Abs(v * (levels - 1) - 255 * Steps(v, levels)) <= 254
    ensures 2 * Abs(255 * Steps(v, levels) - Value(Steps(v, levels), levels) * (levels - 1)) <= levels - 1
  {
    RoundUpNearest(v * (levels - 1), 255);
    RoundUpNearest(Steps(v, levels) * 255, levels - 1);
  }

  lemma ExactMultiple(k: int, d: int)
    requires d > 0
    ensures Round(k * d, d) == k
  {
    RoundIsNearest(k, k * d, d);
  }

  lemma ValueEnds(levels: int)
    requires levels >= 2
    ensures Value(0, levels) == 0 && Value(levels - 1, levels) == 255
    ensures Steps(0, levels) == 0 && Steps(255, levels) == levels - 1
  {
    var m := levels - 1;
    assert 255 * m == m * 255 && 0 * m == 0;
    ExactMultiple(0, m);
    ExactMultiple(255, m);
    ExactMultiple(0, 255);
    ExactMultiple(m, 255);
  }

  lemma StepsMonotone(v: int, w: int, levels: int)
    requires v <= w && levels >= 2
    ensures Steps(v, levels) <= Steps(w, levels)
  {
    var m := levels - 1;
    assert w * m == v * m + (w - v) * m;
    RoundMonotone(v * m, w * m, 255);
  }

  lemma ValueMonotone(k: int, j: int, levels: int)
    requires k <= j && levels >= 2
    ensures Value(k, levels) <= Value(j, levels)
  {
    RoundMonotone(k * 255, j * 255, levels - 1);
  }

  /** From two levels on no value leaves 0..255, so the clamp at 255 never acts. */
  lemma ClampNeverActs(v: Byte, levels: int)
    requires levels >= 2
    ensures 0 <= Steps(v, levels) <= levels - 1
    ensures 0 <= Value(Steps(v, levels), levels) <= 255
  {
    ValueEnds(levels);
    StepsMonotone(0, v, levels);
    StepsMonotone(v, 255, levels);
    ValueMonotone(0, Steps(v, levels), levels);
    ValueMonotone(Steps(v, levels), levels - 1, levels);
  }

  lemma MirroredSteps(v: int, levels: int)
    requires levels <= 0
    ensures Steps(v, levels) == -Steps(v, 2 - levels)
  {
    var m := 1 - levels;
    assert v * (levels - 1) == -(v * m);
    RoundOdd(v * m, 255);
  }

  /** A negative step undoes its own sign: the table for `levels` is that for `2 - levels`. */
  lemma MirroredLevels(v: int, levels: int)
    requires levels <= 0
    ensures Value(Steps(v, levels), levels) == Value(Steps(v, 2 - levels), 2 - levels)
  {
    MirroredSteps(v, levels);
    assert -(Steps(v, levels) * 255) == Steps(v, 2 - levels) * 255;
  }

  lemma LevelInRange(v: Byte, levels: int)
    requires levels != 1
    ensures 0 <= Value(Steps(v, levels), levels) <= 255
  {
    if levels <= 0 {
      MirroredLevels(v, levels);
      ClampNeverActs(v, 2 - levels);
    } else {
      ClampNeverActs(v, levels);
    }
  }

  /** One entry of the table. */
  function Level(v: Byte, levels: int): (t: Byte)
    requires levels != 1
  {
    LevelInRange(v, levels);
    Min(255, Value(Steps(v, levels), levels))
  }

  function Table(levels: int): (table: seq<Byte>)
    requires levels != 1
    ensures |table| == 256
  {
    seq(256, v requires 0 <= v < 256 => Level(v, levels))
  }

  /** With one level the step is a division by zero; every other number of levels gives a table. */
  function Quantise(values: seq<Byte>, levels: int): Result<seq<Byte>> {
    if levels == 1 then Err(ZeroDivision) else
    var table := Table(levels);
    Ok(seq(|values|, i requires 0 <= i < |values| => table[values[i]]))
  }

  lemma LevelIsValue(v: Byte, levels: int)
    requires levels != 1
    ensures Level(v, levels) == Value(Steps(v, levels), levels)
  {
    LevelInRange(v, levels);
  }

  /** t is the table's entry for v: the nearest integer to k steps, where k is the nearest number of steps to v. */
  ghost predicate EntryBy(k: int, v: Byte, t: Byte, levels: int)
    requires levels >= 2
  {
    Nearest(k, v * (levels - 1), 255) && Nearest(t, k * 255, levels - 1)
  }

  /** Exactly one byte is the entry, ties going to even numbers in both roundings. */
  lemma LevelExactly(v: Byte, t: Byte, levels: int)
    requires levels >= 2
    ensures t == Level(v, levels) <==> exists k :: EntryBy(k, v, t, levels)
  {
    var k := Steps(v, levels);
    LevelIsValue(v, levels);
    RoundIsNearest(k, v * (levels - 1), 255);
    RoundIsNearest(t, k * 255, levels - 1);
    if t == Level(v, levels) {
      assert EntryBy(k, v, t, levels);
    }
    forall j | EntryBy(j, v, t, levels)
      ensures j == k
    {
      RoundIsNearest(j, v * (levels - 1), 255);
    }
  }

  /** With three levels the middle one is a tie: 127.5 goes to the even 128. */
  lemma ValueTieExample()
    ensures Value(1, 3) == 128 && Level(63, 3) == 0 && Level(64, 3) == 128
  {
  }

  /** The table keeps the order of the bytes and leaves black and full coverage alone. */
  lemma QuantiseOrder(v: Byte, w: Byte, levels: int)
    requires levels >= 2 && v <= w
    ensures Level(v, levels) <= Level(w, levels)
    ensures Level(0, levels) == 0 && Level(255, levels) == 255
  {
    StepsMonotone(v, w, levels);
    ValueMonotone(Steps(v, levels), Steps(w, levels), levels);
    ValueEnds(levels);
  }

  lemma Scaled(m: nat, t: int, v: int)
    ensures 2 * m * Abs(t - v) == 2 * Abs(t * m - v * m)
  {
    var x := t - v;
    assert x * m == t * m - v * m;
    assert m * Abs(x) == Abs(x * m);
  }

  lemma Within(a: int, b: int, c: int, m: nat)
    requires 2 * Abs(a - b) <= 254 && 2 * Abs(b - c) <= m
    ensures 2 * Abs(c - a) <= 255 + m
  {
  }

  /** No byte moves by more than half a step and one half: |t - v| <= (255 / (levels - 1) + 1) / 2. */
  lemma QuantiseError(v: Byte, levels: int)
    requires levels >= 2
    ensures 2 * (levels - 1) * Abs(Level(v, levels) - v) <= 255 + (levels - 1)
  {
    var m, t, k := levels - 1, Level(v, levels), Steps(v, levels);
    LevelIsValue(v, levels);
    StepsNeverTie(v, levels);
    Within(v * m, 255 * k, t * m, m);
    Scaled(m, t, v);
  }

  /** At the shipped sixteen levels the step is 17 exactly, and each byte goes to the nearest multiple of it. */
  lemma ShippedLevels(v: Byte, t: Byte)
    ensures t == Level(v, LEVELS) <==> t % 17 == 0 && Abs(t - v) <= 8
  {
    var k, j := Steps(v, 16), t / 17;
    StepsNeverTie(v, 16);
    LevelIsValue(v, 16);
    RoundIsNearest(17 * k, k * 255, 15);
    assert Level(v, 16) == 17 * k && 2 * Abs(15 * v - 255 * k) <= 254;
    assert t % 17 == 0 <==> t == 17 * j;
    if t == 17 * j && Abs(t - v) <= 8 {
      assert j == k;
    }
  }

  /** Up to 256 levels the byte for k steps is k steps away from zero again. */
  lemma StepsOfValue(k: int, levels: int)
    requires 2 <= levels <= 256
    ensures Steps(Value(k, levels), levels) == k
  {
    var m, t := levels - 1, Value(k, levels);
    RoundUpNearest(k * 255, m);
    RoundIsNearest(k, t * m, 255);
  }

  /** From 256 levels on nothing is lost at all. */
  lemma FineTableIsIdentity(v: Byte, levels: int)
    requires levels >= 256
    ensures Level(v, levels) == v
  {
    var m, k := levels - 1, Steps(v, levels);
    StepsNeverTie(v, levels);
    RoundIsNearest(v, k * 255, m);
  }

  lemma LevelIdempotent(v: Byte, levels: int)
    requires levels != 1
    ensures Level(Level(v, levels), levels) == Level(v, levels)
    decreases levels <= 0
  {
    var t := Level(v, levels);
    LevelIsValue(v, levels);
    LevelIsValue(t, levels);
    if levels <= 0 {
      MirroredLevels(v, levels);
      MirroredLevels(t, levels);
      LevelIsValue(v, 2 - levels);
      LevelIsValue(t, 2 - levels);
      LevelIdempotent(v, 2 - levels);
    } else if levels <= 256 {
      StepsOfValue(Steps(v, levels), levels);
    } else {
      FineTableIsIdentity(v, levels);
    }
  }

  /** Quantising twice is quantising once, for every number of levels there is a table for. */
  lemma QuantiseIdempotent(values: seq<Byte>, levels: int)
    requires levels != 1
    ensures Quantise(values, levels).Ok?
    ensures Quantise(Quantise(values, levels).value, levels) == Quantise(values, levels)
  {
    var once := Quantise(values, levels).value;
    var twice := Quantise(once, levels).value;
    forall i | 0 <= i < |values|
      ensures twice[i] == once[i]
    {
      LevelIdempotent(values[i], levels);
    }
    assert twice == once;
  }

  ghost function Values(n: nat, levels: int): set<int>
    requires levels != 1
  {
    set k: int | 0 <= k < n :: Value(k, levels)
  }

  lemma {:induction false} ValuesCount(n: nat, levels: int)
    requires 2 <= levels <= 256
    ensures |Values(n, levels)| == n
  {
    if n == 0 {
      assert Values(n, levels) == {};
    } else {
      ValuesCount(n - 1, levels);
      assert Values(n, levels) == Values(n - 1, levels) + {Value(n - 1, levels)};
      forall k | 0 <= k < n - 1
        ensures Value(k, levels) != Value(n - 1, levels)
      {
        StepsOfValue(k, levels);
        StepsOfValue(n - 1, levels);
      }
    }
  }

  /** Up to 256 levels the table takes exactly `levels` values, each of which it maps to itself. */
  lemma QuantiserImage(levels: int)
    requires 2 <= levels <= 256
    ensures var image := set v: Byte | 0 <= v < 256 :: Level(v, levels);
            |image| == levels && forall t: Byte :: t in image <==> Level(t, levels) == t
  {
    var image := set v: Byte | 0 <= v < 256 :: Level(v, levels);
    forall v: Byte
      ensures Level(v, levels) in Values(levels, levels)
      ensures Level(Level(v, levels), levels) == Level(v, levels)
    {
      ClampNeverActs(v, levels);
      LevelIdempotent(v, levels);
    }
    forall k | 0 <= k < levels
      ensures Value(k, levels) in image
    {
      ValueEnds(levels);
      ValueMonotone(0, k, levels);
      ValueMonotone(k, levels - 1, levels);
      StepsOfValue(k, levels);
      var t: Byte := Value(k, levels);
      assert Level(t, levels) == t;
    }
    assert image == Values(levels, levels);
    ValuesCount(levels, levels);
  }
}
