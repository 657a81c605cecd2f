/** What becomes of a literal run of more than 271 bytes: exactly when the round trip fails, and two inputs. */
module LzvnLongRuns {
  import opened Bits
  import opened Lz
  import opened LzvnDecode
  import opened LzvnEmit
  import opened LzvnSearch
  import opened LzvnEncode
  import opened LzvnLimits

  // ---------------------------------------------------------------- the wrapped length

  lemma SingleRun(p: seq<byte>)
    ensures Code([Literals(p)]) == LiteralBytes(p)
  {
    var ops := [Literals(p)];
    assert Init(ops) == [] && Code([]) == [];
    assert Code(ops) == Code(Init(ops)) + OpBytes(Last(ops), LastD(Init(ops)));
  }

  /**
   * What happens to every longer run: the length byte wraps, so the decoder takes only the first L - 256 bytes
   * as literals and goes on to read the other 256 as opcodes.
   */
  lemma WrappedRun(p: seq<byte>, code: seq<byte>, rest: seq<byte>, out: seq<byte>, dPrev: nat)
    requires 272 <= |p| < 528 && code == LiteralBytes(p) + rest
    ensures Yields(code, out, dPrev, p[|p| - 256..] + rest, out + p[..|p| - 256], dPrev)
  {
    var m := |p| - 256;
    assert code[0] == 0xE0 && code[1] == m - 16;
    assert code[2..2 + m] == p[..m];
    assert code[2 + m..] == p[m..] + rest;
    StepYields(code, out, dPrev, 2 + m, out + p[..m], dPrev);
  }

  // ---------------------------------------------------------------- sources without repetition

  /** The decoder's result is the source: a fact about one decoding to pass around. */
  ghost predicate Gives(code: seq<byte>, out: seq<byte>, p: seq<byte>, dEnd: nat) {
    forall c: seq<byte> :: c == code ==> Decode(c, out, 0, dEnd) == Some(p)
  }

  /** Three bytes repeated in a prefix are repeated in the whole. */
  lemma PrefixRepeats(p: seq<byte>, r: seq<byte>, k: nat, D: nat, M: nat)
    requires r <= p && M >= 3 && Repeats(r, k, D, M)
    ensures !NoRepeats(p)
  {
    assert Same(r, k, D) && Same(r, k + 1, D) && Same(r, k + 2, D);
    assert p[..|r|] == r;
    assert SameThree(p, k - D, k) && !Fresh(p, k);
  }

  /** A literal-and-match opcode that succeeds. */
  lemma MatchStep(code: seq<byte>, out: seq<byte>, p: seq<byte>, dEnd: nat)
    returns (r: seq<byte>, k: nat, D: nat, M: nat)
    requires code != [] && code[0] < 0xE0 && code[0] !in {0x06, 0x0E, 0x16} && Gives(code, out, p, dEnd)
    ensures r <= p && M >= 3 && Repeats(r, k, D, M)
  {
    assert Decode(code, out, 0, dEnd) == Some(p);
    var o := MatchOperands(code, 0);
    var step := OneStep(code, out, 0, dEnd);
    assert o.Operands? && step == LitMatch(code, o.at, out, o.L, o.M, o.D, dEnd) && step.Next?;
    LitMatchAppends(code, o.at, out, o.L, o.M, o.D, dEnd);
    DecodeAppends(code[step.used..], step.out, step.dPrev, dEnd);
    r, k, D, M := step.out, |out| + o.L, o.D, o.M;
  }

  /** Every match opcode repeats three bytes. */
  lemma MatchRepeatsThree(code: seq<byte>, out: seq<byte>, p: seq<byte>, dEnd: nat)
    requires code != [] && code[0] < 0xE0 && code[0] !in {0x06, 0x0E, 0x16} && Gives(code, out, p, dEnd)
    ensures !NoRepeats(p)
  {
    var r, k, D, M := MatchStep(code, out, p, dEnd);
    PrefixRepeats(p, r, k, D, M);
  }

  /** Without an earlier match a match-only opcode fails. */
  lemma RepeatFails(code: seq<byte>, out: seq<byte>, p: seq<byte>, dEnd: nat)
    requires code != [] && code[0] >= 0xF0
    ensures !Gives(code, out, p, dEnd)
  {
    assert OneStep(code, out, 0, dEnd) == Fail;
    assert Decode(code, out, 0, dEnd) == None;
  }

  /** A literal opcode that succeeds: at header bytes and L literals. */
  lemma LiteralStep(code: seq<byte>, out: seq<byte>, p: seq<byte>, dEnd: nat) returns (at: nat, L: nat)
    requires code != [] && 0xE0 <= code[0] < 0xF0 && Gives(code, out, p, dEnd)
    ensures 1 <= at <= 2 && at + L <= |code| && L >= 1
    ensures Gives(code[at + L..], out + code[at..at + L], p, dEnd) && out + code[at..at + L] <= p
  {
    assert Decode(code, out, 0, dEnd) == Some(p);
    at := if code[0] == 0xE0 then 2 else 1;
    var opc: nat, b1: nat := code[0], if |code| < 2 then 0 else code[1];
    L := if opc == 0xE0 then b1 + 16 else opc % 16;
    assert OneStep(code, out, 0, dEnd) == Next(at + L, out + code[at..at + L], 0);
    DecodeAppends(code[at + L..], out + code[at..at + L], 0, dEnd);
  }

  /** Decoding reads the source from q on, having produced its first o bytes: too few to catch up. */
  ghost predicate Behind(p: seq<byte>, q: nat, o: nat, code: seq<byte>, out: seq<byte>) {
    && 272 <= |p| < 280 && |p| - 256 <= o <= q <= |p|
    && 3 * (o - (|p| - 256)) <= 2 * (q - (|p| - 256))
    && code == p[q..] + END_OF_STREAM && out == p[..o]
  }

  /** Three literals taken from the source itself would repeat it. */
  lemma LiteralsRepeat(p: seq<byte>, q: nat, o: nat, code: seq<byte>, at: nat, L: nat)
    requires NoRepeats(p) && o <= q && 1 <= at && q + at + 3 <= |p| && code == p[q..] + END_OF_STREAM
    requires 3 <= L && at + L <= |code|
    ensures !(p[..o] + code[at..at + L] <= p)
  {
    var r := p[..o] + code[at..at + L];
    assert Fresh(p, q + at) && !SameThree(p, o, q + at);
    assert r[o] == code[at] == p[q + at];
    assert r[o + 1] == code[at + 1] == p[q + at + 1];
    assert r[o + 2] == code[at + 2] == p[q + at + 2];
  }

  /** Once the end opcode has been swallowed only zeros are left, and they decode to nothing. */
  lemma ZerosFail(code: seq<byte>, out: seq<byte>, p: seq<byte>, dEnd: nat)
    requires |out| < |p| && forall b <- code :: b == 0
    ensures !Gives(code, out, p, dEnd)
  {
    if code != [] {
      assert code[0] in code && (|code| > 1 ==> code[1] in code);
      assert OneStep(code, out, 0, dEnd) == Fail;
    }
    assert Decode(code, out, 0, dEnd) != Some(p);
  }

  lemma StopsShort(p: seq<byte>, code: seq<byte>, out: seq<byte>, dEnd: nat)
    requires code != [] && code[0] == 0x06 && |out| < |p|
    ensures !Gives(code, out, p, dEnd)
  {
    assert Decode(code, out, 0, dEnd) == Some(out);
  }

  lemma SkipsOne(p: seq<byte>, code: seq<byte>, out: seq<byte>, dEnd: nat)
    requires code != [] && code[0] in {0x0E, 0x16} && Gives(code, out, p, dEnd)
    ensures Gives(code[1..], out, p, dEnd)
  {
    assert Decode(code, out, 0, dEnd) == Some(p);
  }

  /** A literal opcode read from the source takes one or two bytes of it. */
  lemma LiteralsStaySmall(p: seq<byte>, q: nat, o: nat, code: seq<byte>, out: seq<byte>, at: nat, L: nat, dEnd: nat)
    requires NoRepeats(p) && Behind(p, q, o, code, out) && q < |p| && 1 <= at <= 2 && at + L <= |code|
    requires Gives(code[at + L..], out + code[at..at + L], p, dEnd) && out + code[at..at + L] <= p
    ensures L <= 2 && q + at + L <= |p|
  {
    if L >= 3 && q + at + 3 <= |p| {
      LiteralsRepeat(p, q, o, code, at, L);
    } else if q + at + L > |p| {
      var rest := code[at + L..];
      assert L <= 10 && rest == END_OF_STREAM[q + at + L - |p|..];
      assert forall b <- rest :: b == 0;
      ZerosFail(rest, out + code[at..at + L], p, dEnd);
    }
  }

  /** Reading its own tail as opcodes, the decoder never produces a source in which nothing repeats. */
  lemma {:induction false} Astray(p: seq<byte>, q: nat, o: nat, code: seq<byte>, out: seq<byte>, dEnd: nat)
    requires NoRepeats(p) && Behind(p, q, o, code, out)
    ensures !Gives(code, out, p, dEnd)
    decreases |code|
  {
    if q == |p| || code[0] == 0x06 {
      StopsShort(p, code, out, dEnd);
    } else if Gives(code, out, p, dEnd) {
      if code[0] in {0x0E, 0x16} {
        SkipsOne(p, code, out, dEnd);
        Astray(p, q + 1, o, code[1..], out, dEnd);
      } else if code[0] >= 0xF0 {
        RepeatFails(code, out, p, dEnd);
      } else if code[0] >= 0xE0 {
        var at, L := LiteralStep(code, out, p, dEnd);
        LiteralsStaySmall(p, q, o, code, out, at, L, dEnd);
        assert out + code[at..at + L] == p[..o + L];
        Astray(p, q + at + L, o + L, code[at + L..], out + code[at..at + L], dEnd);
      } else {
        MatchRepeatsThree(code, out, p, dEnd);
      }
    }
  }

  lemma LongRunLost(p: seq<byte>, code: seq<byte>, dEnd: nat)
    requires NoRepeats(p) && 272 <= |p| < 280 && |p| <= dEnd && code == LiteralBytes(p) + END_OF_STREAM
    ensures !Gives(code, [], p, dEnd)
  {
    var m := |p| - 256;
    var rest := p[m..] + END_OF_STREAM;
    WrappedRun(p, code, END_OF_STREAM, [], 0);
    assert [] + p[..m] == p[..m];
    Astray(p, m, m, rest, p[..m], dEnd);
    assert Decode(code, [], 0, dEnd) == Decode(rest, p[..m], 0, dEnd);
  }

  lemma ShortRunKept(p: seq<byte>, code: seq<byte>, dEnd: nat)
    requires 0 < |p| <= MAX_BACKLOG && |p| <= dEnd && code == LiteralBytes(p) + END_OF_STREAM
    ensures Gives(code, [], p, dEnd)
  {
    LiteralsDecode(p, code, END_OF_STREAM, [], 0);
    assert [] + p == p;
    assert Decode(END_OF_STREAM, p, 0, dEnd) == Some(p);
  }

  lemma UnmatchedCode(p: seq<byte>, code: seq<byte>)
    requires NoRepeats(p) && 0 < |p| < 280 && code == Code(EncodeOps(p)) + END_OF_STREAM
    ensures code == LiteralBytes(p) + END_OF_STREAM
  {
    UnmatchedSource(p);
    SingleRun(p);
  }

  /**
   * The exact condition for sources in which nothing repeats: fewer than 280 bytes come back from
   * CompressLZVN and DecompressLZVN if and only if there are at most 271 of them.
   */
  lemma UnmatchedSourceComesBack(p: seq<byte>, code: seq<byte>, dEnd: nat)
    requires NoRepeats(p) && 0 < |p| < 280 && |p| <= dEnd && code == Code(EncodeOps(p)) + END_OF_STREAM
    ensures Decode(code, [], 0, dEnd) == Some(p) <==> |p| <= MAX_BACKLOG
  {
    UnmatchedCode(p, code);
    if |p| <= MAX_BACKLOG { ShortRunKept(p, code, dEnd); } else { LongRunLost(p, code, dEnd); }
  }

  // ---------------------------------------------------------------- two inputs that do not come back

  /** 279 bytes without a repeated 3-byte string: 0, 1, ..., 255, then 255, 254, ..., 233. */
  function LongTail(): (s: seq<byte>)
    ensures |s| == 279 && forall i :: 0 <= i < 279 ==> s[i] == UpDown(i)
  {
    seq(279, i requires 0 <= i < 279 => UpDown(i))
  }

  lemma LongTailNoRepeats()
    ensures NoRepeats(LongTail())
  {
    var s := LongTail();
    forall i: nat, j: nat | i < j && j + 3 <= |s|
      ensures !SameThree(s, i, j)
    {
      var a: int, b: int, c: int := s[i], s[i + 1], s[i + 2];
      var x: int, y: int, z: int := s[j], s[j + 1], s[j + 2];
    }
  }

  /** The decoder reads 0x17 as a match from 6424 bytes back, before the start of the output. */
  lemma TailStops(code: seq<byte>, out: seq<byte>, dPrev: nat, dEnd: nat)
    requires |out| < 6424 && |code| >= 3 && code[..3] == [23, 24, 25]
    ensures Decode(code, out, dPrev, dEnd) == None
  {
    assert code[0] == code[..3][0] && code[1] == code[..3][1] && code[2] == code[..3][2];
    assert MatchOperands(code, dPrev) == Operands(3, 0, 5, 24 + 256 * 25);
    assert OneStep(code, out, dPrev, dEnd) == Fail;
  }

  /** A run of 279 bytes that goes on with 23, 24, 25 after its first 23 bytes. */
  lemma LongTailLost(s: seq<byte>, code: seq<byte>, dEnd: nat)
    requires |s| == 279 <= dEnd && s[23..26] == [23, 24, 25] && code == LiteralBytes(s) + END_OF_STREAM
    ensures Decode(code, [], 0, dEnd) == None
  {
    var rest, out := s[23..] + END_OF_STREAM, [] + s[..23];
    WrappedRun(s, code, END_OF_STREAM, [], 0);
    assert rest[..3] == s[23..26];
    TailStops(rest, out, 0, dEnd);
  }

  /** The code of these 279 bytes is not decodable, whatever the buffer. */
  lemma LongTailFails(s: seq<byte>, code: seq<byte>, dEnd: nat)
    requires s == LongTail() && 279 <= dEnd && code == Code(EncodeOps(s)) + END_OF_STREAM
    ensures Decode(code, [], 0, dEnd) == None
  {
    LongTailNoRepeats();
    ThreeAt(s, 23);
    UnmatchedCode(s, code);
    LongTailLost(s, code, dEnd);
  }

  lemma ThreeAt(s: seq<byte>, i: nat)
    requires i + 3 <= |s| && s[i] == 23 && s[i + 1] == 24 && s[i + 2] == 25
    ensures s[i..i + 3] == [23, 24, 25]
  {
  }

  /** A concrete input that CompressLZVN turns into a stream DecompressLZVN rejects. */
  method RoundTripFailure(maxOut: nat) returns (src: seq<byte>, code: seq<byte>, ok: bool, out: seq<byte>)
    requires 279 <= maxOut
    ensures src == LongTail() && code == Code(EncodeOps(src)) + END_OF_STREAM
    ensures Decode(code, [], 0, maxOut) == None && !ok
  {
    src := LongTail();
    code, ok, out := CompressThenDecompress(src, maxOut);
    LongTailFails(src, code, maxOut);
  }

  /** 200 zeros in front of it make Compress keep the LZVN form. */
  function ZerosThenTail(): (s: seq<byte>)
    ensures |s| == 479 && forall i :: 0 <= i < 479 ==> s[i] == if i < 200 then 0 else UpDown(i - 200)
  {
    seq(479, i requires 0 <= i < 479 => if i < 200 then 0 else UpDown(i - 200))
  }

  lemma TailFresh(i: nat)
    requires 201 <= i < 476
    ensures Fresh(ZerosThenTail(), i)
  {
    var s := ZerosThenTail();
    forall j: nat | j < i
      ensures !SameThree(s, j, i)
    {
      var a: int, b: int, c: int := s[j], s[j + 1], s[j + 2];
      var x: int, y: int, z: int := s[i], s[i + 1], s[i + 2];
    }
  }

  /** A match within the first three positions covers at most the zeros. */
  lemma ZerosMatch(at: nat, m: MatchInfo)
    requires 1 <= at <= 2 && FromBucket(ZerosThenTail(), 0, at, m) && m.M != 0
    ensures 1 <= m.mBegin && m.mEnd <= 201 && m.K <= 198 && (m.K == 198 ==> m == MatchInfo(1, 201, 200, 1, 198))
  {
    var s := ZerosThenTail();
    assert !Same(s, 201, m.D);
  }

  lemma ZerosCovered(m: MatchInfo)
    requires Verified(ZerosThenTail(), m, 0, 1) && !Same(ZerosThenTail(), m.mEnd, 1)
    ensures m.mBegin == 1 && m.mEnd >= 201
  {
    if m.mEnd < 201 { assert Same(ZerosThenTail(), m.mEnd, 1); }
  }

  lemma AllZerosMatch()
    ensures FindN(ZerosThenTail(), 0, 0, 1, Common(ZerosThenTail(), 1, 0)).K >= 198
  {
    var s := ZerosThenTail();
    FindNVerified(s, 0, 0, 1);
    var m := FindN(s, 0, 0, 1, Common(s, 1, 0));
    assert SameThree(s, 0, 1) && !Same(s, 478, 1) && !Same(s, 477, 1) && !Same(s, 476, 1) && !Same(s, 475, 1);
    ZerosCovered(m);
  }

  const ZERO_MATCH := Triplet([0], 200, 1)

  /** After two positions the match of all zeros is pending. */
  lemma ZerosPending() returns (s: State)
    ensures var src := ZerosThenTail();
            && Valid(src, s) && s.pos == 2 && s.lit == s.dPrev == 0 && s.ops == []
            && s.pending == MatchInfo(1, 201, 200, 1, 198) && Searched(src) == Run(src, s, 471)
  {
    var src := ZerosThenTail();
    InitialValid(src);
    assert Fresh(src, 0);
    s := QuietRun(src, Initial(), 1, 471);
    assert SameThree(src, 0, 1);
    RecentFound(src, s, 0);
    AllZerosMatch();
    ZerosMatch(1, Incoming(src, 0, 1, 0, BucketAt(src, s)));
    s := OneTurn(src, s, 471);
  }

  lemma SendsZeros(s: State, m: MatchInfo)
    requires s.pos == 2 && s.lit == 0 && s.ops == [] && s.pending == MatchInfo(1, 201, 200, 1, 198)
    requires m.M != 0 && m.mBegin <= 2 && m.K <= 198
    ensures var s' := Decided(ZerosThenTail(), s, m);
            s'.ops == [ZERO_MATCH] && s'.lit == 201 && s'.pending == NO_MATCH
  {
    assert Slice(ZerosThenTail(), 0, 1) == [0];
  }

  /** After three positions the zeros have been sent. */
  lemma ZerosSent() returns (s: State)
    ensures var src := ZerosThenTail();
            && Valid(src, s) && s.pos == 3 && s.lit == 201 && s.pending == NO_MATCH && s.ops == [ZERO_MATCH]
            && Searched(src) == Run(src, s, 471)
  {
    var src := ZerosThenTail();
    s := ZerosPending();
    assert SameThree(src, 1, 2);
    RecentFound(src, s, 1);
    var m := Incoming(src, 0, 2, 0, BucketAt(src, s));
    ZerosMatch(2, m);
    SendsZeros(s, m);
    s := OneTurn(src, s, 471);
  }

  lemma RestAfter(src: seq<byte>, op: Op, lit: nat)
    requires Searched(src).ops == [op] && Searched(src).lit == lit < |src|
    ensures EncodeOps(src) == [op, Literals(src[lit..])]
  {
    assert Slice(src, lit, |src|) == src[lit..];
  }

  /** The zeros leave as one match; the other 278 bytes as one literal run. */
  lemma ZerosThenTailOps()
    ensures EncodeOps(ZerosThenTail()) == [ZERO_MATCH, Literals(ZerosThenTail()[201..])]
  {
    var src := ZerosThenTail();
    var s := ZerosSent();
    forall i: nat | 3 <= i < 471
      ensures i < 201 || Fresh(src, i)
    {
      if i >= 201 { TailFresh(i); }
    }
    var s' := QuietRun(src, s, 471, 471);
    RestAfter(src, ZERO_MATCH, 201);
  }

  lemma OpThenRun(op: Op, p: seq<byte>)
    requires op.Triplet? && LastD([]) == 0
    ensures Code([op, Literals(p)]) == OpBytes(op, 0) + LiteralBytes(p)
  {
    var ops := [op, Literals(p)];
    assert Init(ops) == [op] && Init([op]) == [] && Code([]) == [];
    assert Code([op]) == OpBytes(op, 0);
  }

  lemma TwoHundredZeros()
    ensures OpBytes(ZERO_MATCH, 0) == [0x68, 1, 0, 0xF0, 176]
  {
    assert LmdBytes([0], 200, 1, 0) == HeadBytes([0], 200, 1, 0) + TailBytes(192);
    assert TailBytes(192) == [0xF0, 176] + TailBytes(0);
  }

  lemma ZerosThenTailCode(src: seq<byte>, code: seq<byte>)
    requires src == ZerosThenTail() && code == Code(EncodeOps(src)) + END_OF_STREAM
    ensures code == OpBytes(ZERO_MATCH, 0) + (LiteralBytes(src[201..]) + END_OF_STREAM) && |code| == 293
  {
    ZerosThenTailOps();
    TwoHundredZeros();
    OpThenRun(ZERO_MATCH, src[201..]);
    SeqAssoc(OpBytes(ZERO_MATCH, 0), LiteralBytes(src[201..]), END_OF_STREAM);
  }

  lemma ZerosDecode(rest: seq<byte>, out: seq<byte>)
    requires out == LzCopy([0], 1, 200)
    ensures Yields(OpBytes(ZERO_MATCH, 0) + rest, [], 0, rest, out, 1)
  {
    assert [] + [0] == [0];
    LmdDecodes([0], 200, 1, 0, rest, [], out);
  }

  /** 278 literals, of which the 23rd to 25th are 23, 24, 25, after 201 zeros. */
  lemma TailLost(p: seq<byte>, all: seq<byte>, dEnd: nat)
    requires |p| == 278 && 479 <= dEnd && p[22..25] == [23, 24, 25]
    requires all == OpBytes(ZERO_MATCH, 0) + (LiteralBytes(p) + END_OF_STREAM)
    ensures Decode(all, [], 0, dEnd) == None
  {
    var code := LiteralBytes(p) + END_OF_STREAM;
    var rest := p[22..] + END_OF_STREAM;
    var out := LzCopy([0], 1, 200);
    ZerosDecode(code, out);
    WrappedRun(p, code, END_OF_STREAM, out, 1);
    assert rest[..3] == p[22..25];
    TailStops(rest, out + p[..22], 1, dEnd);
    RefusedAfter(all, code, out, rest, out + p[..22], dEnd);
  }

  /** The code of these 479 bytes is not decodable, whatever the buffer. */
  lemma ZerosThenTailFails(src: seq<byte>, code: seq<byte>, dEnd: nat)
    requires src == ZerosThenTail() && 479 <= dEnd && code == Code(EncodeOps(src)) + END_OF_STREAM
    ensures Decode(code, [], 0, dEnd) == None
  {
    var p := src[201..];
    assert p[22] == src[223] && p[23] == src[224] && p[24] == src[225];
    ThreeAt(p, 22);
    ZerosThenTailCode(src, code);
    TailLost(p, code, dEnd);
  }

  lemma RefusedAfter(code: seq<byte>, code1: seq<byte>, out1: seq<byte>, code2: seq<byte>, out2: seq<byte>, dEnd: nat)
    requires Yields(code, [], 0, code1, out1, 1) && Yields(code1, out1, 1, code2, out2, 1)
    requires |out1| <= |out2| <= dEnd && Decode(code2, out2, 1, dEnd) == None
    ensures Decode(code, [], 0, dEnd) == None
  {
    YieldsTransitive(code, [], 0, code1, out1, 1, code2, out2, 1);
  }
}
