/** The five PNG predictors (section 6 of RFC 2083), over the bytes to the left (a), above (b) and above left (c). */
module Predictor {
  import opened Bytes

  function Abs(x: int): (n: nat)
    ensures n >= x && n >= -x && (n == x || n == -x)
  {
    if x < 0 then -x else x
  }

  function Paeth(a: Byte, b: Byte, c: Byte): Byte {
    var p := a + b - c;
    var pa, pb, pc := Abs(p - a), Abs(p - b), Abs(p - c);
    if pa <= pb && pa <= pc then a else if pb <= pc then b else c
  }

  /** What filter type f predicts; a type outside 1..4 predicts zero. */
  function Predict(f: Byte, a: Byte, b: Byte, c: Byte): Byte {
    match f
    case 1 => a
    case 2 => b
    case 3 => (a + b) / 2
    case 4 => Paeth(a, b, c)
    case _ => 0
  }

  /** A way of predicting a byte from its three neighbours. */
  type Rule = (Byte, Byte, Byte) -> Byte

  function RuleOf(f: Byte): Rule {
    (a, b, c) => Predict(f, a, b, c)
  }

  /** How far x misses the estimate a + b - c. */
  function Miss(x: int, a: Byte, b: Byte, c: Byte): nat {
    Abs(a + b - c - x)
  }

  /** r is a neighbour closest to a + b - c, and no neighbour earlier in the order a, b, c is as close. */
  ghost predicate NearestNeighbour(r: int, a: Byte, b: Byte, c: Byte) {
    && (r == a || r == b || r == c)
    && Miss(r, a, b, c) <= Miss(a, a, b, c)
    && Miss(r, a, b, c) <= Miss(b, a, b, c)
    && Miss(r, a, b, c) <= Miss(c, a, b, c)
    && (r != a ==> Miss(r, a, b, c) < Miss(a, a, b, c))
    && (r != a && r != b ==> Miss(r, a, b, c) < Miss(b, a, b, c))
  }

  /** The Paeth predictor is the one value that is nearest in this sense (section 6.6 of RFC 2083). */
  lemma PaethIsNearest(a: Byte, b: Byte, c: Byte, r: int)
    ensures r == Paeth(a, b, c) <==> NearestNeighbour(r, a, b, c)
  {
  }

  /** q is half of a + b, rounded down. */
  ghost predicate HalfOf(q: int, a: Byte, b: Byte) {
    0 <= a + b - 2 * q <= 1
  }

  /** The Average predictor is that number (section 6.5 of RFC 2083). */
  lemma AverageIsHalf(a: Byte, b: Byte, c: Byte, q: int)
    ensures q == Predict(3, a, b, c) <==> HalfOf(q, a, b)
  {
  }

  /**
   * Byte e encodes byte p under filter type f, with l to its left, u above and c above left: the equations
   * of sections 6.2 to 6.6 of RFC 2083, mod 256.
   */
  ghost predicate Encoded(f: Byte, e: Byte, p: Byte, l: Byte, u: Byte, c: Byte) {
    match f
    case 1 => (p - e - l) % 256 == 0
    case 2 => (p - e - u) % 256 == 0
    case 3 => exists q :: HalfOf(q, l, u) && (p - e - q) % 256 == 0
    case 4 => exists q :: NearestNeighbour(q, l, u, c) && (p - e - q) % 256 == 0
    case _ => p == e
  }
}
