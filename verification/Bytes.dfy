/** Bytes, Python's slices over them, and the 32-bit big-endian numbers of PNG. */
module Bytes {
  type Byte = b: int | 0 <= b < 256

  const WORD := 0x1_0000_0000

  datatype Option<+T> = None | Some(value: T)

  /** The exceptions that can end the script. */
  datatype Error =
    | NotPng        // the eight signature bytes are not there
    | BadHeader     // an image that is not 8-bit RGBA without interlacing
    | StructError   // a number that does not fit its field, or a field cut short
    | ZlibError     // compressed data that does not decompress
    | TypeError     // arithmetic on the size of an image without a header
    | IndexError    // a read past the end of a buffer
    | ZeroDivision  // the step between one level

  datatype Result<+T> = Ok(value: T) | Err(error: Error)

  function Min(a: int, b: int): int {
    if a < b then a else b
  }

  /** Python's slice from lo to hi: both bounds are clamped to the length. */
  function Slice<T>(s: seq<T>, lo: nat, hi: nat): (r: seq<T>)
    requires lo <= hi
    ensures |r| == Min(hi, |s|) - Min(lo, |s|)
    ensures forall i :: 0 <= i < |r| ==> r[i] == s[lo + i]
  {
    s[Min(lo, |s|)..Min(hi, |s|)]
  }

  /** Python's assignment to a slice of a bytearray: the length changes when the piece does not fit. */
  function Splice<T>(s: seq<T>, lo: nat, hi: nat, piece: seq<T>): (r: seq<T>)
    requires lo <= hi
    ensures |r| == |s| - (Min(hi, |s|) - Min(lo, |s|)) + |piece|
  {
    s[..Min(lo, |s|)] + piece + s[Min(hi, |s|)..]
  }

  /** The byte at index i, and zero outside the sequence. */
  function At(s: seq<Byte>, i: int): Byte {
    if 0 <= i < |s| then s[i] else 0
  }

  function Zeros(n: nat): (z: seq<Byte>)
    ensures |z| == n && forall i :: 0 <= i < n ==> z[i] == 0
  {
    seq(n, _ => 0)
  }

  // ----- sequences, end by end

  lemma InitLast<T>(s: seq<T>)
    requires s != []
    ensures s == s[..|s| - 1] + [s[|s| - 1]]
  {
  }

  lemma HeadTail<T>(s: seq<T>)
    requires s != []
    ensures [s[0]] + s[1..] == s
  {
  }

  lemma TakeSnoc<T>(s: seq<T>, x: T, k: nat)
    requires k <= |s|
    ensures (s + [x])[..k] == s[..k]
  {
  }

  lemma TakeTake<T>(s: seq<T>, j: nat, k: nat)
    requires k <= j <= |s|
    ensures s[..j][..k] == s[..k]
  {
  }

  lemma TakeLeft<T>(s: seq<T>, t: seq<T>, i: nat, j: nat)
    requires i <= j <= |s|
    ensures (s + t)[i..j] == s[i..j]
  {
  }

  lemma Rejoin<T>(s: seq<T>, i: nat)
    requires i <= |s|
    ensures s[..i] + s[i..] == s
  {
  }

  lemma TakeMore<T>(s: seq<T>, i: nat, n: nat)
    requires i + n <= |s|
    ensures s[..i] + Slice(s, i, i + n) == s[..i + n]
    ensures |Slice(s, i, i + n)| == n
  {
  }

  lemma Associate<T>(a: seq<T>, b: seq<T>, c: seq<T>)
    ensures a + (b + c) == a + b + c
  {
  }

  lemma PartOfPart(s: seq<Byte>, lo: nat, hi: nat, i: nat, j: nat)
    requires lo <= hi <= |s| && i <= j <= hi - lo
    ensures s[lo..hi][i..j] == s[lo + i..lo + j]
  {
    var part, same := s[lo..hi][i..j], s[lo + i..lo + j];
    forall k | 0 <= k < j - i
      ensures part[k] == same[k]
    {
    }
  }

  lemma JoinParts(s: seq<Byte>, i: nat, j: nat, k: nat)
    requires i <= j <= k <= |s|
    ensures s[i..j] + s[j..k] == s[i..k]
  {
  }

  // ----- 32-bit words

  /** A word as four bytes, most significant first. */
  function Be32(n: nat): (s: seq<Byte>)
    requires n < WORD
    ensures |s| == 4
  {
    var n1 := n / 256;
    var n2 := n1 / 256;
    [n2 / 256, n2 % 256, n1 % 256, n % 256]
  }

  /** The word that four bytes stand for. */
  function FromBe32(s: seq<Byte>): (n: nat)
    requires |s| == 4
    ensures n < WORD
  {
    var w: seq<int> := s;
    ((w[0] * 256 + w[1]) * 256 + w[2]) * 256 + w[3]
  }

  lemma Digit(high: int, low: int)
    requires 0 <= low < 256
    ensures (high * 256 + low) / 256 == high && (high * 256 + low) % 256 == low
  {
  }

  /** Packing and unpacking 32-bit words are inverse, both ways. */
  lemma Be32RoundTrip(n: nat, s: seq<Byte>)
    requires n < WORD && |s| == 4
    ensures FromBe32(Be32(n)) == n
    ensures Be32(FromBe32(s)) == s
  {
    var w: seq<int> := s;
    var high := w[0] * 256 + w[1];
    Digit(w[0], w[1]);
    Digit(high, w[2]);
    Digit(high * 256 + w[2], w[3]);
  }

  lemma SmallWord(s: seq<Byte>, b: Byte)
    requires |s| == 4 && FromBe32(s) == b
    ensures s == [0, 0, 0, b]
  {
    Be32RoundTrip(b, s);
  }

  /** Each byte of a word weighs 256 times the byte behind it. */
  lemma WordWeights(s: seq<Byte>)
    requires |s| == 4
    ensures var w: seq<int> := s;
            FromBe32(s) == 0x100_0000 * w[0] + 0x1_0000 * w[1] + 0x100 * w[2] + w[3]
  {
  }

  /** At the first place where s and t differ, s has the lower byte. */
  ghost predicate ComesBefore(s: seq<Byte>, t: seq<Byte>) {
    exists k: nat :: LowerAt(k, s, t)
  }

  ghost predicate LowerAt(k: nat, s: seq<Byte>, t: seq<Byte>) {
    && k < |s| && k < |t| && s[k] < t[k]
    && forall i :: 0 <= i < k ==> s[i] == t[i]
  }

  lemma LowerWord(k: nat, s: seq<Byte>, t: seq<Byte>)
    requires |s| == |t| == 4 && LowerAt(k, s, t)
    ensures FromBe32(s) < FromBe32(t)
  {
    WordWeights(s);
    WordWeights(t);
    assert k == 0 || k == 1 || k == 2 || k == 3;
  }

  lemma FirstDifference(s: seq<Byte>, t: seq<Byte>)
    requires |s| == |t| == 4
    ensures s == t || ComesBefore(s, t) || ComesBefore(t, s)
  {
    var k: nat := if s[0] != t[0] then 0 else if s[1] != t[1] then 1 else if s[2] != t[2] then 2 else 3;
    assert s == t || LowerAt(k, s, t) || LowerAt(k, t, s);
  }

  /** Big-endian: words are ordered as their bytes are, compared from the first one on (section 2.1 of RFC 2083). */
  lemma Be32Order(n: nat, m: nat)
    requires n < WORD && m < WORD
    ensures n < m <==> ComesBefore(Be32(n), Be32(m))
  {
    var s, t := Be32(n), Be32(m);
    Be32RoundTrip(n, s);
    Be32RoundTrip(m, t);
    if n < m {
      FirstDifference(s, t);
      forall k: nat | LowerAt(k, t, s)
        ensures false
      {
        LowerWord(k, t, s);
      }
    }
    forall k: nat | LowerAt(k, s, t)
      ensures n < m
    {
      LowerWord(k, s, t);
    }
  }
}
