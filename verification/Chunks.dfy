/** PNG chunk framing (section 3.2 of RFC 2083): length, kind, body, CRC. */
module Chunks {
  import opened Bytes

  datatype Chunk = Chunk(kind: seq<Byte>, body: seq<Byte>)

  /** What the loop yields, and the offset at which it stops. */
  datatype Parsed = Parsed(chunks: seq<Chunk>, end: nat)

  /** These chunks first, then the parsed ones. */
  function Before(cs: seq<Chunk>, p: Parsed): Parsed {
    Parsed(cs + p.chunks, p.end)
  }

  /** The same chunks, found n bytes further on. */
  function Later(n: nat, p: Parsed): Parsed {
    Parsed(p.chunks, p.end + n)
  }

  // ----- printing

  ghost predicate Printable(c: Chunk) {
    |c.kind| == 4 && |c.body| < WORD
  }

  ghost predicate AllPrintable(cs: seq<Chunk>) {
    forall i :: 0 <= i < |cs| ==> Printable(cs[i])
  }

  ghost predicate FourEach(checks: seq<seq<Byte>>) {
    forall i :: 0 <= i < |checks| ==> |checks[i]| == 4
  }

  /** One chunk with the given check bytes. */
  function Frame(c: Chunk, check: seq<Byte>): seq<Byte>
    requires |c.body| < WORD
  {
    Be32(|c.body|) + c.kind + c.body + check
  }

  function Frames(cs: seq<Chunk>, checks: seq<seq<Byte>>): seq<Byte>
    requires AllPrintable(cs) && |checks| == |cs|
  {
    if cs == [] then [] else Frame(cs[0], checks[0]) + Frames(cs[1..], checks[1..])
  }

  /** The check bytes the writer appends: the low 32 bits of a checksum of kind and body. */
  function Check(c: Chunk, crc: seq<Byte> -> nat): (check: seq<Byte>)
    ensures |check| == 4
  {
    Be32(crc(c.kind + c.body) % WORD)
  }

  function Checks(cs: seq<Chunk>, crc: seq<Byte> -> nat): (checks: seq<seq<Byte>>)
    ensures |checks| == |cs| && forall i :: 0 <= i < |checks| ==> |checks[i]| == 4
  {
    seq(|cs|, i requires 0 <= i < |cs| => Check(cs[i], crc))
  }

  /** The writer's chunk: the length must fit 32 bits. */
  function ChunkBytes(c: Chunk, crc: seq<Byte> -> nat): Result<seq<Byte>> {
    if |c.body| < WORD then Ok(Frame(c, Check(c, crc))) else Err(StructError)
  }

  lemma FourParts(length: seq<Byte>, kind: seq<Byte>, body: seq<Byte>, check: seq<Byte>, n: nat)
    requires |length| == |kind| == |check| == 4 && |body| == n
    ensures var s := length + kind + body + check;
            && |s| == 12 + n
            && s[..4] == length && s[4..8] == kind && s[8..8 + n] == body && s[8 + n..] == check
            && s[4..8 + n] == kind + body
  {
  }

  /**
   * The bytes of a chunk, field by field: the length of its body, its kind, its body, and the low 32 bits of
   * the checksum of all that stands between the length and the checksum.
   */
  lemma ChunkFields(c: Chunk, crc: seq<Byte> -> nat, s: seq<Byte>, n: nat)
    requires |c.kind| == 4 && n == |c.body| && ChunkBytes(c, crc) == Ok(s)
    ensures |s| == 12 + n
    ensures FromBe32(s[..4]) == n && s[4..8] == c.kind && s[8..8 + n] == c.body
    ensures FromBe32(s[8 + n..]) == crc(s[4..8 + n]) % WORD
  {
    FourParts(Be32(n), c.kind, c.body, Check(c, crc), n);
    Be32RoundTrip(n, s[..4]);
    Be32RoundTrip(crc(c.kind + c.body) % WORD, s[..4]);
  }

  // ----- parsing

  /** The bytes from offset i on; none, when i is beyond the end. */
  function From(data: seq<Byte>, i: nat): (s: seq<Byte>)
    ensures |s| == if i <= |data| then |data| - i else 0
  {
    data[Min(i, |data|)..]
  }

  /** The number in the length field the bytes begin with. */
  function LengthOf(s: seq<Byte>): (length: nat)
    requires |s| >= 4
    ensures length < WORD
  {
    FromBe32(Slice(s, 0, 4))
  }

  /** The chunk the bytes begin with, as far as they reach. */
  function FirstOf(s: seq<Byte>): Chunk
    requires |s| >= 4
  {
    Chunk(Slice(s, 4, 8), Slice(s, 8, 8 + LengthOf(s)))
  }

  /** The chunks of the bytes, one after another while there is a length field. */
  function Parse(s: seq<Byte>): Parsed
    decreases |s|
  {
    if |s| < 4 then Parsed([], 0) else
    var next := 12 + LengthOf(s);
    Before([FirstOf(s)], Later(next, Parse(From(s, next))))
  }

  /** The chunks from offset i on. */
  function ParseFrom(data: seq<Byte>, i: nat): Parsed {
    Later(i, Parse(From(data, i)))
  }

  // ----- the loop

  lemma FromFrom(data: seq<Byte>, i: nat, n: nat)
    ensures From(From(data, i), n) == From(data, i + n)
  {
  }

  lemma FromSlice(data: seq<Byte>, i: nat, lo: nat, hi: nat)
    requires lo <= hi
    ensures Slice(From(data, i), lo, hi) == Slice(data, i + lo, i + hi)
  {
  }

  lemma BeforeBefore(c: seq<Chunk>, cs: seq<Chunk>, p: Parsed)
    ensures Before(c, Before(cs, p)) == Before(c + cs, p)
  {
    Associate(c, cs, p.chunks);
  }

  lemma BeforeNothing(p: Parsed)
    ensures Before([], p) == p
  {
    assert [] + p.chunks == p.chunks;
  }

  lemma NothingBehind(cs: seq<Chunk>, i: nat)
    ensures Before(cs, Parsed([], i)) == Parsed(cs, i)
  {
    assert cs + [] == cs;
  }

  lemma LaterBefore(m: nat, cs: seq<Chunk>, n: nat, p: Parsed)
    ensures Later(m, Before(cs, Later(n, p))) == Before(cs, Later(m + n, p))
  {
  }

  lemma {:induction false} ParseOne(s: seq<Byte>, c: Chunk, next: nat)
    requires |s| >= 4 && c == FirstOf(s) && next == 12 + LengthOf(s)
    ensures Parse(s) == Before([c], Later(next, Parse(From(s, next))))
  {
  }

  lemma FieldsFrom(data: seq<Byte>, i: nat, c: Chunk, length: nat)
    requires i + 4 <= |data|
    requires length == FromBe32(Slice(data, i, i + 4))
    requires c == Chunk(Slice(data, i + 4, i + 8), Slice(data, i + 8, i + 8 + length))
    ensures LengthOf(From(data, i)) == length && FirstOf(From(data, i)) == c
  {
    FromSlice(data, i, 0, 4);
    FromSlice(data, i, 4, 8);
    FromSlice(data, i, 8, 8 + length);
  }

  lemma ParseFromOne(data: seq<Byte>, i: nat, c: Chunk, next: nat)
    requires i + 4 <= |data| && c == FirstOf(From(data, i)) && next == 12 + LengthOf(From(data, i))
    ensures ParseFrom(data, i) == Before([c], ParseFrom(data, i + next))
  {
    var rest := Parse(From(data, i + next));
    FromFrom(data, i, next);
    ParseOne(From(data, i), c, next);
    LaterBefore(i, [c], next, rest);
  }

  /** The loop turn at i moves one chunk from what is still to be parsed to what is already yielded. */
  lemma TurnTaken(data: seq<Byte>, i: nat, chunks: seq<Chunk>, c: Chunk, length: nat, next: nat)
    requires i + 4 <= |data| && next == i + 8 + length + 4
    requires length == FromBe32(Slice(data, i, i + 4))
    requires c == Chunk(Slice(data, i + 4, i + 8), Slice(data, i + 8, i + 8 + length))
    ensures Before(chunks, ParseFrom(data, i)) == Before(chunks + [c], ParseFrom(data, next))
  {
    FieldsFrom(data, i, c, length);
    ParseFromOne(data, i, c, 12 + length);
    BeforeBefore(chunks, [c], ParseFrom(data, next));
  }

  lemma NoTurnLeft(data: seq<Byte>, i: nat, chunks: seq<Chunk>)
    requires |data| < i + 4
    ensures Before(chunks, ParseFrom(data, i)) == Parsed(chunks, i)
  {
    NothingBehind(chunks, i);
  }

  method ParseChunks(data: seq<Byte>) returns (p: Parsed)
    ensures p == ParseFrom(data, 8)
  {
    ghost var goal := ParseFrom(data, 8);
    var chunks, i := [], 8;
    BeforeNothing(goal);
    while i < |data|
      invariant goal == Before(chunks, ParseFrom(data, i))
      decreases |data| - i
    {
      var field := Slice(data, i, i + 4);
      if |field| != 4 {
        break;
      }
      var length := FromBe32(field);
      var c := Chunk(Slice(data, i + 4, i + 8), Slice(data, i + 8, i + 8 + length));
      var next := i + 8 + length + 4;
      TurnTaken(data, i, chunks, c, length, next);
      chunks, i := chunks + [c], next;
    }
    NoTurnLeft(data, i, chunks);
    return Parsed(chunks, i);
  }

  // ----- printed chunks are parsed back

  lemma FrameFields(length: seq<Byte>, kind: seq<Byte>, body: seq<Byte>, check: seq<Byte>, tail: seq<Byte>)
    requires |length| == |kind| == |check| == 4
    ensures var data := length + kind + body + check + tail;
            && |data| == 12 + |body| + |tail|
            && Slice(data, 0, 4) == length
            && Slice(data, 4, 8) == kind
            && Slice(data, 8, 8 + |body|) == body
  {
  }

  lemma FrameAt(c: Chunk, check: seq<Byte>, tail: seq<Byte>)
    requires Printable(c) && |check| == 4
    ensures |Frame(c, check)| == 12 + |c.body|
    ensures LengthOf(Frame(c, check) + tail) == |c.body|
    ensures FirstOf(Frame(c, check) + tail) == c
  {
    FrameFields(Be32(|c.body|), c.kind, c.body, check, tail);
    Be32RoundTrip(|c.body|, [0, 0, 0, 0]);
  }

  lemma FromTail(s: seq<Byte>, tail: seq<Byte>)
    ensures From(s + tail, |s|) == tail
  {
  }

  /** One printed chunk is read back, and what follows it is parsed as if it stood alone. */
  lemma {:induction false} ParseFrame(c: Chunk, check: seq<Byte>, tail: seq<Byte>)
    requires Printable(c) && |check| == 4
    ensures Parse(Frame(c, check) + tail) == Before([c], Later(|Frame(c, check)|, Parse(tail)))
  {
    FrameAt(c, check, tail);
    FromTail(Frame(c, check), tail);
    ParseOne(Frame(c, check) + tail, c, |Frame(c, check)|);
  }

  lemma FramesOfTail(cs: seq<Chunk>, checks: seq<seq<Byte>>)
    requires AllPrintable(cs) && |checks| == |cs| && FourEach(checks) && cs != []
    ensures AllPrintable(cs[1..]) && FourEach(checks[1..])
    ensures Printable(cs[0]) && |checks[0]| == 4
  {
  }

  /** Printed chunks are yielded first, and what follows them is parsed as if it stood alone. */
  lemma {:induction false} ParseFrames(cs: seq<Chunk>, checks: seq<seq<Byte>>, tail: seq<Byte>)
    requires AllPrintable(cs) && |checks| == |cs| && FourEach(checks)
    ensures Parse(Frames(cs, checks) + tail) == Before(cs, Later(|Frames(cs, checks)|, Parse(tail)))
    decreases |cs|
  {
    if cs == [] {
      assert [] + tail == tail;
      BeforeNothing(Parse(tail));
    } else {
      FramesOfTail(cs, checks);
      var frame, later, rest := Frame(cs[0], checks[0]), Frames(cs[1..], checks[1..]), Parse(tail);
      ParseFrames(cs[1..], checks[1..], tail);
      ParseFrame(cs[0], checks[0], later + tail);
      Associate(frame, later, tail);
      LaterBefore(|frame|, cs[1..], |later|, rest);
      BeforeBefore([cs[0]], cs[1..], Later(|frame| + |later|, rest));
      HeadTail(cs);
    }
  }

  // ----- printed chunks in the data

  lemma FourFields(data: seq<Byte>, n: nat)
    requires 12 + n <= |data|
    ensures data == Slice(data, 0, 4) + Slice(data, 4, 8) + Slice(data, 8, 8 + n) + Slice(data, 8 + n, 12 + n)
                    + data[12 + n..]
  {
  }

  lemma FrameInFront(data: seq<Byte>)
    requires 4 <= |data| && 12 + LengthOf(data) <= |data|
    ensures var next, c := 12 + LengthOf(data), FirstOf(data);
            && Printable(c) && |Slice(data, next - 4, next)| == 4
            && data == Frame(c, Slice(data, next - 4, next)) + data[next..]
  {
    var n := LengthOf(data);
    Be32RoundTrip(0, Slice(data, 0, 4));
    FourFields(data, n);
  }

  // ----- every byte string is printed chunks and a rest

  /** The bytes are these chunks, printed one after another with some check bytes. */
  ghost predicate Framed(bytes: seq<Byte>, cs: seq<Chunk>) {
    && AllPrintable(cs)
    && exists checks: seq<seq<Byte>> :: |checks| == |cs| && FourEach(checks) && bytes == Frames(cs, checks)
  }

  /** A printed chunk that has lost some of its last bytes, but not its length field. */
  ghost predicate CutFrame(s: seq<Byte>) {
    exists c, check :: Printable(c) && |check| == 4 && 4 <= |s| && s < Frame(c, check)
  }

  /** The bytes are printed chunks and nothing else. */
  ghost predicate EndsWhole(s: seq<Byte>) {
    exists cs :: Framed(s, cs)
  }

  /** Up to offset k the bytes are these chunks; one to three bytes follow. */
  ghost predicate StrayFrom(s: seq<Byte>, k: nat, cs: seq<Chunk>) {
    k <= |s| && 1 <= |s| - k <= 3 && Framed(s[..k], cs)
  }

  ghost predicate EndsStray(s: seq<Byte>) {
    exists k, cs :: StrayFrom(s, k, cs)
  }

  /** Up to offset k the bytes are these chunks; what follows is one more, cut. */
  ghost predicate CutFrom(s: seq<Byte>, k: nat, cs: seq<Chunk>) {
    k <= |s| && Framed(s[..k], cs) && CutFrame(s[k..])
  }

  ghost predicate EndsCut(s: seq<Byte>) {
    exists k, cs :: CutFrom(s, k, cs)
  }

  lemma PrefixField(s: seq<Byte>, t: seq<Byte>)
    requires 4 <= |s| && s <= t
    ensures LengthOf(s) == LengthOf(t)
  {
    assert Slice(s, 0, 4) == Slice(t, 0, 4);
  }

  /** The length field alone says whether a chunk is cut. */
  lemma CutFrameExactly(s: seq<Byte>)
    ensures CutFrame(s) <==> 4 <= |s| && |s| < 12 + LengthOf(s)
  {
    if 4 <= |s| && |s| < 12 + LengthOf(s) {
      var n := LengthOf(s);
      var t := s + Zeros(12 + n - |s|);
      PrefixField(s, t);
      FrameInFront(t);
      assert s < t && t[12 + n..] == [];
      assert Frame(FirstOf(t), Slice(t, 8 + n, 12 + n)) + [] == Frame(FirstOf(t), Slice(t, 8 + n, 12 + n));
    }
    forall c, check | Printable(c) && |check| == 4 && 4 <= |s| && s < Frame(c, check)
      ensures |s| < 12 + LengthOf(s)
    {
      FrameAt(c, check, []);
      assert Frame(c, check) + [] == Frame(c, check);
      PrefixField(s, Frame(c, check));
    }
  }

  /** Of a cut chunk the parser yields what is left of its kind and its body, and stops where it would have ended. */
  lemma {:induction false} ParseCutFrame(s: seq<Byte>)
    requires CutFrame(s)
    ensures |s| >= 4 && Parse(s) == Parsed([FirstOf(s)], 12 + LengthOf(s))
    ensures 12 + LengthOf(s) > |s|
  {
    CutFrameExactly(s);
    NothingBehind([FirstOf(s)], 12 + LengthOf(s));
  }

  lemma FramesCons(c: Chunk, check: seq<Byte>, cs: seq<Chunk>, checks: seq<seq<Byte>>)
    requires Printable(c) && AllPrintable(cs) && |checks| == |cs|
    requires |check| == 4 && FourEach(checks)
    ensures AllPrintable([c] + cs) && FourEach([check] + checks)
    ensures Frames([c] + cs, [check] + checks) == Frame(c, check) + Frames(cs, checks)
  {
    assert ([c] + cs)[1..] == cs && ([check] + checks)[1..] == checks;
  }

  /** Chunks and check bytes can be peeled off until fewer than four bytes or a cut chunk are left. */
  lemma {:induction false} Peel(data: seq<Byte>) returns (cs: seq<Chunk>, checks: seq<seq<Byte>>, rest: seq<Byte>)
    ensures AllPrintable(cs) && |checks| == |cs| && FourEach(checks)
    ensures data == Frames(cs, checks) + rest
    ensures |rest| < 4 || CutFrame(rest)
    decreases |data|
  {
    if |data| < 4 || |data| < 12 + LengthOf(data) {
      cs, checks, rest := [], [], data;
      CutFrameExactly(data);
      assert data == [] + data;
    } else {
      var next, c := 12 + LengthOf(data), FirstOf(data);
      var check := Slice(data, next - 4, next);
      FrameInFront(data);
      cs, checks, rest := Peel(data[next..]);
      FramesCons(c, check, cs, checks);
      Associate(Frame(c, check), Frames(cs, checks), rest);
      cs, checks := [c] + cs, [check] + checks;
    }
  }

  /** What is parsed of printed chunks and a rest, by the kind of rest. */
  lemma {:induction false} ParseByRest(cs: seq<Chunk>, checks: seq<seq<Byte>>, rest: seq<Byte>)
    requires AllPrintable(cs) && |checks| == |cs| && FourEach(checks)
    requires |rest| < 4 || CutFrame(rest)
    ensures var n := |Frames(cs, checks)|;
            Parse(Frames(cs, checks) + rest)
            == if |rest| < 4 then Parsed(cs, n)
               else Parsed(cs + [FirstOf(rest)], n + 12 + LengthOf(rest))
    ensures |rest| >= 4 ==> 12 + LengthOf(rest) > |rest|
  {
    var n := |Frames(cs, checks)|;
    ParseFrames(cs, checks, rest);
    if |rest| < 4 {
      NothingBehind(cs, n);
    } else {
      ParseCutFrame(rest);
    }
  }

  lemma FramedSplit(s: seq<Byte>, k: nat, cs: seq<Chunk>) returns (checks: seq<seq<Byte>>)
    requires k <= |s| && Framed(s[..k], cs)
    ensures |checks| == |cs| && FourEach(checks) && s == Frames(cs, checks) + s[k..] && |Frames(cs, checks)| == k
  {
    checks :| |checks| == |cs| && FourEach(checks) && s[..k] == Frames(cs, checks);
    Rejoin(s, k);
  }

  lemma {:induction false} StrayParses(s: seq<Byte>, k: nat, cs: seq<Chunk>)
    requires StrayFrom(s, k, cs)
    ensures Parse(s) == Parsed(cs, k)
  {
    var checks := FramedSplit(s, k, cs);
    ParseByRest(cs, checks, s[k..]);
  }

  lemma {:induction false} CutParses(s: seq<Byte>, k: nat, cs: seq<Chunk>)
    requires CutFrom(s, k, cs)
    ensures |s| >= k + 4
    ensures Parse(s) == Parsed(cs + [FirstOf(s[k..])], k + 12 + LengthOf(s[k..]))
    ensures Parse(s).end > |s|
  {
    var checks := FramedSplit(s, k, cs);
    CutFrameExactly(s[k..]);
    ParseByRest(cs, checks, s[k..]);
  }

  lemma {:induction false} WholeParses(s: seq<Byte>, cs: seq<Chunk>)
    requires Framed(s, cs)
    ensures Parse(s) == Parsed(cs, |s|)
  {
    assert s[..|s|] == s;
    var checks := FramedSplit(s, |s|, cs);
    ParseByRest(cs, checks, s[|s|..]);
  }

  lemma FramedPart(s: seq<Byte>, cs: seq<Chunk>, checks: seq<seq<Byte>>, rest: seq<Byte>)
    requires AllPrintable(cs) && |checks| == |cs| && FourEach(checks) && s == Frames(cs, checks) + rest
    ensures var k := |Frames(cs, checks)|;
            k <= |s| && Framed(s[..k], cs) && s[k..] == rest
  {
    assert s[..|Frames(cs, checks)|] == Frames(cs, checks);
  }

  /** One of the three endings applies, and says where the parser stops. */
  lemma EndingFound(s: seq<Byte>)
    ensures EndsWhole(s) || EndsStray(s) || EndsCut(s)
  {
    var cs, checks, rest := Peel(s);
    var k := |Frames(cs, checks)|;
    FramedPart(s, cs, checks, rest);
    if |rest| == 0 {
      assert s[..k] == s;
    } else if |rest| < 4 {
      assert StrayFrom(s, k, cs);
    } else {
      assert CutFrom(s, k, cs);
    }
  }

  /**
   * How the data ends decides how the parser stops, and the other way round: at the end for printed
   * chunks, short of it for one to three bytes more, beyond it for a last chunk that is cut.
   */
  lemma {:induction false} ParserStops(s: seq<Byte>)
    ensures Parse(s).end == |s| <==> EndsWhole(s)
    ensures Parse(s).end < |s| <==> EndsStray(s)
    ensures Parse(s).end > |s| <==> EndsCut(s)
  {
    EndingFound(s);
    forall cs | Framed(s, cs)
      ensures Parse(s).end == |s|
    {
      WholeParses(s, cs);
    }
    forall k, cs | StrayFrom(s, k, cs)
      ensures Parse(s).end < |s|
    {
      StrayParses(s, k, cs);
    }
    forall k, cs | CutFrom(s, k, cs)
      ensures Parse(s).end > |s|
    {
      CutParses(s, k, cs);
    }
  }

  /**
   * The parser yields exactly these chunks and stops exactly at the end of the data, if and only if
   * the data is these chunks printed one after another, whatever the check bytes.
   */
  lemma {:induction false} FramingRoundTrip(s: seq<Byte>, cs: seq<Chunk>)
    ensures Parse(s) == Parsed(cs, |s|) <==> Framed(s, cs)
  {
    if Framed(s, cs) {
      WholeParses(s, cs);
    }
    if Parse(s) == Parsed(cs, |s|) {
      ParserStops(s);
      var ds :| Framed(s, ds);
      WholeParses(s, ds);
    }
  }

  /** A chunk of nine bytes of which one byte of the kind is left: it is yielded so, without complaint. */
  lemma {:induction false} CutExample()
    ensures Parse([0, 0, 0, 9, 73]) == Parsed([Chunk([73], [])], 21)
  {
    var s: seq<Byte> := [0, 0, 0, 9, 73];
    assert Slice(s, 0, 4) == [0, 0, 0, 9] && Slice(s, 4, 8) == [73] && Slice(s, 8, 17) == [];
    assert LengthOf(s) == 9;
    NothingBehind([FirstOf(s)], 21);
  }
}
