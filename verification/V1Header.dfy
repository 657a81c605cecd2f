/** The V1 block header: 772 bytes of fixed-width little-endian fields, the frequency tables uncompressed. */
module V1Header {
  import opened Bits
  import opened BlockSpec

  const V1_HEADER_SIZE: nat := 772

  // ---------------------------------------------------------------- reading

  /** n little-endian 16-bit values. */
  function Words16(b: seq<byte>, at: nat, n: nat): (w: seq<nat>)
    requires at + 2 * n <= |b|
    ensures |w| == n
  {
    seq(n, i requires 0 <= i < n => LE(b[at + 2 * i..at + 2 * i + 2]))
  }

  function Int32(x: nat): int {
    if x < 0x8000_0000 then x else x - 0x1_0000_0000
  }

  function ReadV1Header(b: seq<byte>): (h: Header)
    requires |b| >= V1_HEADER_SIZE
    ensures |h.lFreq| == 20 && |h.mFreq| == 20 && |h.dFreq| == 64 && |h.literalFreq| == 256 && |h.literalState| == 4
  {
    Header(
      LE(b[4..8]), LE(b[12..16]), LE(b[16..20]), LE(b[20..24]), LE(b[24..28]),
      Int32(LE(b[28..32])), Words16(b, 32, 4), Int32(LE(b[40..44])),
      LE(b[44..46]), LE(b[46..48]), LE(b[48..50]),
      Words16(b, 52, 20), Words16(b, 92, 20), Words16(b, 132, 64), Words16(b, 260, 256))
  }

  // ---------------------------------------------------------------- writing

  /** The two's complement of a 32-bit integer. */
  function Uint32(x: int): (n: nat)
    requires -0x8000_0000 <= x < 0x8000_0000
    ensures n < 0x1_0000_0000 && Int32(n) == x
  {
    if x < 0 then x + 0x1_0000_0000 else x
  }

  /** Every field is in the range of its type. */
  ghost predicate V1Fits(h: Header) {
    && h.nRawBytes < 0x1_0000_0000 && h.nLiterals < 0x1_0000_0000 && h.nMatches < 0x1_0000_0000
    && h.nLiteralPayloadBytes < 0x1_0000_0000 && h.nLMDPayloadBytes < 0x1_0000_0000
    && -0x8000_0000 <= h.literalBits < 0x8000_0000 && -0x8000_0000 <= h.lmdBits < 0x8000_0000
    && h.lState < 0x1_0000 && h.mState < 0x1_0000 && h.dState < 0x1_0000
    && AllBelow16(h.literalState, 4) && AllBelow16(h.lFreq, 20) && AllBelow16(h.mFreq, 20)
    && AllBelow16(h.dFreq, 64) && AllBelow16(h.literalFreq, 256)
  }

  ghost predicate AllBelow16(w: seq<nat>, n: nat) {
    |w| == n && forall i :: 0 <= i < n ==> w[i] < 0x1_0000
  }

  /** Little-endian 16-bit values one after another. */
  function WordBytes(w: seq<nat>): (b: seq<byte>)
    ensures |b| == 2 * |w|
  {
    if w == [] then [] else WordBytes(w[..|w| - 1]) + PutLE(2, w[|w| - 1])
  }

  lemma {:induction false} WordsRoundTrip(w: seq<nat>, front: seq<byte>, back: seq<byte>)
    requires forall i :: 0 <= i < |w| ==> w[i] < 0x1_0000
    ensures Words16(front + WordBytes(w) + back, |front|, |w|) == w
  {
    if w == [] {
    } else {
      var n := |w| - 1;
      var mid, last := WordBytes(w[..n]), PutLE(2, w[n]);
      WordsRoundTrip(w[..n], front, last + back);
      LastWord(front, mid, last, back, w[n]);
      OneMoreWord(front + mid + (last + back), |front|, n, w);
      assert front + (mid + last) + back == front + mid + (last + back);
    }
  }

  lemma {:induction false} OneMoreWord(b: seq<byte>, at: nat, n: nat, w: seq<nat>)
    requires |w| == n + 1 && at + 2 * n + 2 <= |b|
    requires Words16(b, at, n) == w[..n] && LE(b[at + 2 * n..at + 2 * n + 2]) == w[n]
    ensures Words16(b, at, n + 1) == w
  {
    assert Words16(b, at, n + 1) == Words16(b, at, n) + [LE(b[at + 2 * n..at + 2 * n + 2])];
    assert w == w[..n] + [w[n]];
  }

  lemma {:induction false} LastWord(front: seq<byte>, mid: seq<byte>, last: seq<byte>, back: seq<byte>, x: nat)
    requires last == PutLE(2, x) && x < 0x1_0000
    ensures var b, at := front + mid + (last + back), |front| + |mid|; LE(b[at..at + 2]) == x
  {
    var b, at := front + mid + (last + back), |front| + |mid|;
    assert b[at..at + 2] == last;
    Pow2Values();
    PutLERoundTrip(2, x);
  }

  /** The first 32 bytes: sizes, counts and the literal bit count. */
  function Sizes(h: Header, nPayload: nat): (b: seq<byte>)
    requires V1Fits(h)
    ensures |b| == 32
  {
    (PutLE(4, MAGIC_COMPRESSED_V1) + PutLE(4, h.nRawBytes) + PutLE(4, nPayload) + PutLE(4, h.nLiterals))
    + (PutLE(4, h.nMatches) + PutLE(4, h.nLiteralPayloadBytes) + PutLE(4, h.nLMDPayloadBytes)
       + PutLE(4, Uint32(h.literalBits)))
  }

  /** Twelve more after the literal states: the L/M/D bit count and states, and two bytes of padding. */
  function LmdStart(h: Header): (b: seq<byte>)
    requires V1Fits(h)
    ensures |b| == 12
  {
    PutLE(4, Uint32(h.lmdBits)) + PutLE(2, h.lState) + PutLE(2, h.mState) + PutLE(2, h.dState) + [0, 0]
  }

  function TableBytes(h: Header): (b: seq<byte>)
    requires V1Fits(h)
    ensures |b| == 720
  {
    WordBytes(h.lFreq) + WordBytes(h.mFreq) + WordBytes(h.dFreq) + WordBytes(h.literalFreq)
  }

  /** The header of a block with this many payload bytes. */
  function V1Bytes(h: Header, nPayload: nat): (b: seq<byte>)
    requires V1Fits(h)
    ensures |b| == V1_HEADER_SIZE
  {
    Sizes(h, nPayload) + WordBytes(h.literalState) + LmdStart(h) + TableBytes(h)
  }

  // ---------------------------------------------------------------- the round trip

  lemma {:induction false} FourFields(p: seq<byte>, q: seq<byte>, r: seq<byte>, s: seq<byte>, b: seq<byte>)
    requires |p| == 4 && |q| == 4 && |r| == 4 && |s| == 4 && b == p + q + r + s
    ensures b[0..4] == p && b[4..8] == q && b[8..12] == r && b[12..16] == s
  {
  }

  lemma {:induction false} SizesRead(h: Header, nPayload: nat)
    requires V1Fits(h)
    ensures var b := Sizes(h, nPayload);
      && LE(b[4..8]) == h.nRawBytes && LE(b[12..16]) == h.nLiterals && LE(b[16..20]) == h.nMatches
      && LE(b[20..24]) == h.nLiteralPayloadBytes && LE(b[24..28]) == h.nLMDPayloadBytes
      && LE(b[28..32]) == Uint32(h.literalBits)
  {
    var b := Sizes(h, nPayload);
    var l := PutLE(4, MAGIC_COMPRESSED_V1) + PutLE(4, h.nRawBytes) + PutLE(4, nPayload) + PutLE(4, h.nLiterals);
    var r := PutLE(4, h.nMatches) + PutLE(4, h.nLiteralPayloadBytes) + PutLE(4, h.nLMDPayloadBytes)
             + PutLE(4, Uint32(h.literalBits));
    FourFields(PutLE(4, MAGIC_COMPRESSED_V1), PutLE(4, h.nRawBytes), PutLE(4, nPayload), PutLE(4, h.nLiterals), l);
    FourFields(PutLE(4, h.nMatches), PutLE(4, h.nLiteralPayloadBytes), PutLE(4, h.nLMDPayloadBytes),
               PutLE(4, Uint32(h.literalBits)), r);
    Halves(l, r, b);
    Field32(h.nRawBytes);
    Field32(h.nLiterals);
    Field32(h.nMatches);
    Field32(h.nLiteralPayloadBytes);
    Field32(h.nLMDPayloadBytes);
    Field32(Uint32(h.literalBits));
  }

  lemma {:induction false} Halves(l: seq<byte>, r: seq<byte>, b: seq<byte>)
    requires |l| == 16 && |r| == 16 && b == l + r
    ensures b[4..8] == l[4..8] && b[12..16] == l[12..16]
    ensures b[16..20] == r[0..4] && b[20..24] == r[4..8] && b[24..28] == r[8..12] && b[28..32] == r[12..16]
  {
  }

  lemma Field32(v: nat)
    requires v < 0x1_0000_0000
    ensures LE(PutLE(4, v)) == v
  {
    Pow2Big();
    PutLERoundTrip(4, v);
  }

  lemma Field16(v: nat)
    requires v < 0x1_0000
    ensures LE(PutLE(2, v)) == v
  {
    Pow2Values();
    PutLERoundTrip(2, v);
  }

  lemma {:induction false} LmdStartRead(h: Header)
    requires V1Fits(h)
    ensures var b := LmdStart(h);
      && LE(b[0..4]) == Uint32(h.lmdBits) && LE(b[4..6]) == h.lState && LE(b[6..8]) == h.mState
      && LE(b[8..10]) == h.dState
  {
    var b := LmdStart(h);
    var p, q, r, s := PutLE(4, Uint32(h.lmdBits)), PutLE(2, h.lState), PutLE(2, h.mState), PutLE(2, h.dState);
    assert b[0..4] == p && b[4..6] == q && b[6..8] == r && b[8..10] == s;
    Field32(Uint32(h.lmdBits));
    Field16(h.lState);
    Field16(h.mState);
    Field16(h.dState);
  }

  /** Where the four parts of a header stand. */
  lemma {:induction false} PartsStand(h: Header, nPayload: nat, rest: seq<byte>, b: seq<byte>)
    requires V1Fits(h) && b == V1Bytes(h, nPayload) + rest
    ensures b[..32] == Sizes(h, nPayload) && b[40..52] == LmdStart(h)
    ensures b == Sizes(h, nPayload) + WordBytes(h.literalState) + (LmdStart(h) + TableBytes(h) + rest)
    ensures b == b[..52] + (TableBytes(h) + rest)
  {
  }

  lemma {:induction false} SubSlices(b: seq<byte>, p: seq<byte>, q: seq<byte>)
    requires |b| >= 52 && p == b[..32] && q == b[40..52]
    ensures b[4..8] == p[4..8] && b[12..16] == p[12..16] && b[16..20] == p[16..20] && b[20..24] == p[20..24]
    ensures b[24..28] == p[24..28] && b[28..32] == p[28..32]
    ensures b[40..44] == q[0..4] && b[44..46] == q[4..6] && b[46..48] == q[6..8] && b[48..50] == q[8..10]
  {
  }

  lemma {:induction false} FixedFieldsRead(h: Header, nPayload: nat, rest: seq<byte>, b: seq<byte>)
    requires V1Fits(h) && b == V1Bytes(h, nPayload) + rest
    ensures LE(b[4..8]) == h.nRawBytes && LE(b[12..16]) == h.nLiterals && LE(b[16..20]) == h.nMatches
    ensures LE(b[20..24]) == h.nLiteralPayloadBytes && LE(b[24..28]) == h.nLMDPayloadBytes
    ensures Int32(LE(b[28..32])) == h.literalBits && Int32(LE(b[40..44])) == h.lmdBits
    ensures LE(b[44..46]) == h.lState && LE(b[46..48]) == h.mState && LE(b[48..50]) == h.dState
    ensures Words16(b, 32, 4) == h.literalState
  {
    PartsStand(h, nPayload, rest, b);
    SubSlices(b, Sizes(h, nPayload), LmdStart(h));
    SizesRead(h, nPayload);
    LmdStartRead(h);
    WordsRoundTrip(h.literalState, Sizes(h, nPayload), LmdStart(h) + TableBytes(h) + rest);
  }

  lemma {:induction false} TablesRead(h: Header, front: seq<byte>, rest: seq<byte>, b: seq<byte>)
    requires V1Fits(h) && |front| == 52 && b == front + (TableBytes(h) + rest)
    ensures Words16(b, 52, 20) == h.lFreq && Words16(b, 92, 20) == h.mFreq
    ensures Words16(b, 132, 64) == h.dFreq && Words16(b, 260, 256) == h.literalFreq
  {
    var l, m, d, s := WordBytes(h.lFreq), WordBytes(h.mFreq), WordBytes(h.dFreq), WordBytes(h.literalFreq);
    assert TableBytes(h) == l + m + d + s;
    assert b == front + l + (m + d + s + rest);
    WordsRoundTrip(h.lFreq, front, m + d + s + rest);
    assert b == (front + l) + m + (d + s + rest);
    WordsRoundTrip(h.mFreq, front + l, d + s + rest);
    assert b == (front + l + m) + d + (s + rest);
    WordsRoundTrip(h.dFreq, front + l + m, s + rest);
    assert b == (front + l + m + d) + s + rest;
    WordsRoundTrip(h.literalFreq, front + l + m + d, rest);
  }

  /** A written header is read back field for field, whatever follows it. */
  lemma {:induction false} V1RoundTrip(h: Header, nPayload: nat, rest: seq<byte>)
    requires V1Fits(h)
    ensures ReadV1Header(V1Bytes(h, nPayload) + rest) == h
  {
    var b := V1Bytes(h, nPayload) + rest;
    FixedFieldsRead(h, nPayload, rest, b);
    PartsStand(h, nPayload, rest, b);
    TablesRead(h, b[..52], rest, b);
  }

  lemma {:induction false} V1Magic(h: Header, nPayload: nat)
    requires V1Fits(h)
    ensures V1Bytes(h, nPayload)[..4] == PutLE(WORD_32, MAGIC_COMPRESSED_V1)
  {
    assert V1Bytes(h, nPayload)[..4] == Sizes(h, nPayload)[..4];
  }

  // ---------------------------------------------------------------- the code's writer

  /** Puts a field at a place in the buffer; everything before it is already there. */
  method Put(b: array<byte>, at: nat, field: seq<byte>)
    requires at + |field| <= b.Length
    modifies b
    ensures b[..at + |field|] == old(b[..at]) + field
    ensures forall k :: at + |field| <= k < b.Length ==> b[k] == old(b[k])
  {
    for k := 0 to |field|
      invariant b[..at + k] == old(b[..at]) + field[..k]
      invariant forall j :: at + |field| <= j < b.Length ==> b[j] == old(b[j])
    {
      ghost var front := b[..at + k];
      b[at + k] := field[k];
      assert b[..at + k + 1] == front + [field[k]];
    }
  }

  /** Puts 16-bit values one after another. */
  method PutWords(b: array<byte>, at: nat, w: seq<nat>)
    requires at + 2 * |w| <= b.Length
    modifies b
    ensures b[..at + 2 * |w|] == old(b[..at]) + WordBytes(w)
    ensures forall k :: at + 2 * |w| <= k < b.Length ==> b[k] == old(b[k])
  {
    for i := 0 to |w|
      invariant b[..at + 2 * i] == old(b[..at]) + WordBytes(w[..i])
      invariant forall k :: at + 2 * |w| <= k < b.Length ==> b[k] == old(b[k])
    {
      Put(b, at + 2 * i, PutLE(2, w[i]));
      assert w[..i + 1][..i] == w[..i];
    }
    assert w[..|w|] == w;
  }

  method PutFour(b: array<byte>, at: nat, p: seq<byte>, q: seq<byte>, r: seq<byte>, s: seq<byte>)
    requires at + 16 <= b.Length && |p| == 4 && |q| == 4 && |r| == 4 && |s| == 4
    modifies b
    ensures b[..at + 16] == old(b[..at]) + (p + q + r + s)
    ensures forall k :: at + 16 <= k < b.Length ==> b[k] == old(b[k])
  {
    Put(b, at, p);
    Put(b, at + 4, q);
    Put(b, at + 8, r);
    Put(b, at + 12, s);
  }

  method PutLmdStart(b: array<byte>, h: Header)
    requires V1Fits(h) && b.Length == V1_HEADER_SIZE && b[50] == b[51] == 0
    modifies b
    ensures b[..52] == old(b[..40]) + LmdStart(h)
  {
    Put(b, 40, PutLE(4, Uint32(h.lmdBits)));
    Put(b, 44, PutLE(2, h.lState));
    Put(b, 46, PutLE(2, h.mState));
    Put(b, 48, PutLE(2, h.dState));
    assert b[..52] == b[..50] + [b[50], b[51]];
  }

  method PutTables(b: array<byte>, h: Header)
    requires V1Fits(h) && b.Length == V1_HEADER_SIZE
    modifies b
    ensures b[..] == old(b[..52]) + TableBytes(h)
  {
    ghost var front := b[..52];
    PutWords(b, 52, h.lFreq);
    PutWords(b, 92, h.mFreq);
    PutWords(b, 132, h.dFreq);
    PutWords(b, 260, h.literalFreq);
    assert b[..] == b[..772];
    assert TableBytes(h) == WordBytes(h.lFreq) + WordBytes(h.mFreq) + WordBytes(h.dFreq) + WordBytes(h.literalFreq);
  }

  method WriteV1Header(h: Header, nPayload: nat) returns (b: array<byte>)
    requires V1Fits(h)
    ensures fresh(b) && b[..] == V1Bytes(h, nPayload)
  {
    b := new byte[V1_HEADER_SIZE](_ => 0);
    PutFour(b, 0, PutLE(4, MAGIC_COMPRESSED_V1), PutLE(4, h.nRawBytes), PutLE(4, nPayload), PutLE(4, h.nLiterals));
    PutFour(b, 16, PutLE(4, h.nMatches), PutLE(4, h.nLiteralPayloadBytes), PutLE(4, h.nLMDPayloadBytes),
            PutLE(4, Uint32(h.literalBits)));
    assert b[..32] == Sizes(h, nPayload);
    PutWords(b, 32, h.literalState);
    PutLmdStart(b, h);
    PutTables(b, h);
  }
}
