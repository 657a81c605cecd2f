/** The packed V2 block header: three 64-bit words of bit fields and the frequency tables. */
module V2Header {
  import opened Bits
  import opened FseTables
  import opened BlockSpec
  import opened FreqCode

  const V2_HEADER_MIN_SIZE: nat := 32
  const FREQ_SYMBOLS: nat := 20 + 20 + 64 + 256

  // ---------------------------------------------------------------- bit fields

  /** (v >> at) & ((1 << w) - 1). */
  function Field(v: nat, at: nat, w: nat): nat {
    Low(Shr(v, at), w)
  }

  lemma {:induction false} LowOfLow(v: nat, k: nat, w: nat)
    requires w <= k
    ensures Low(Low(v, k), w) == Low(v, w)
  {
    if w == 0 {
    } else {
      LowOfLow(v / 2, k - 1, w - 1);
    }
  }

  /** A field below bit k depends only on the low k bits. */
  lemma {:induction false} FieldOfLow(v: nat, k: nat, at: nat, w: nat)
    requires at + w <= k
    ensures Field(Low(v, k), at, w) == Field(v, at, w)
  {
    if at == 0 {
      LowOfLow(v, k, w);
    } else {
      FieldOfLow(v / 2, k - 1, at - 1, w);
    }
  }

  /** x | y << k, when x has k bits: y is the field at k and the fields of x are unchanged. */
  lemma AddField(x: nat, k: nat, y: nat, w: nat) returns (v: nat)
    requires x < Pow2(k) && y < Pow2(w) && k < 64 && k + w <= 64
    ensures v == Or(x, Shl64(y, k)) && v < Pow2(k + w) && Field(v, k, w) == y
    ensures forall at: nat, u: nat :: at + u <= k ==> Field(v, at, u) == Field(x, at, u)
  {
    Pow2Scaled(y, w, k);
    Pow2Word(k + w);
    ShlExact(y, k);
    OrDisjoint(x, y, k);
    v := x + y * Pow2(k);
    ShrLowUnique(v, k, y, x);
    LowFits(y, w);
    forall at: nat, u: nat | at + u <= k
      ensures Field(v, at, u) == Field(x, at, u)
    {
      FieldOfLow(v, k, at, u);
    }
  }

  lemma LowFits(x: nat, w: nat)
    requires x < Pow2(w)
    ensures Low(x, w) == x && Field(x, 0, w) == x
  {
    ShrLowUnique(x, w, 0, x);
  }

  /** Four fields side by side. */
  function Pack4(a: nat, b: nat, kb: nat, c: nat, kc: nat, d: nat, kd: nat): nat {
    Or(Or(Or(a, Shl64(b, kb)), Shl64(c, kc)), Shl64(d, kd))
  }

  lemma Pack4Fields(a: nat, wa: nat, b: nat, wb: nat, c: nat, wc: nat, d: nat, wd: nat)
    requires a < Pow2(wa) && b < Pow2(wb) && c < Pow2(wc) && d < Pow2(wd)
    requires wa + wb + wc < 64 && wa + wb + wc + wd <= 64
    ensures var v := Pack4(a, b, wa, c, wa + wb, d, wa + wb + wc);
            && v < Pow2(wa + wb + wc + wd) <= U64
            && Field(v, 0, wa) == a && Field(v, wa, wb) == b
            && Field(v, wa + wb, wc) == c && Field(v, wa + wb + wc, wd) == d
  {
    LowFits(a, wa);
    var x1 := AddField(a, wa, b, wb);
    var x2 := AddField(x1, wa + wb, c, wc);
    var x3 := AddField(x2, wa + wb + wc, d, wd);
    Pow2Word(wa + wb + wc + wd);
  }

  // ---------------------------------------------------------------- packing

  /** Every field is in the range its bits can hold. */
  ghost predicate FieldsFit(h: Header) {
    && HeaderOk(h) && h.nRawBytes < 0x1_0000_0000
    && h.nLiterals < 0x10_0000 && h.nLiteralPayloadBytes < 0x10_0000 && h.nMatches < 0x10_0000
    && h.nLMDPayloadBytes < 0x10_0000 && -7 <= h.literalBits <= 0 && -7 <= h.lmdBits <= 0
  }

  function AllFreqs(h: Header): seq<nat> {
    h.lFreq + h.mFreq + h.dFreq + h.literalFreq
  }

  function Word0(h: Header): nat
    requires h.literalBits >= -7
  {
    Pack4(h.nLiterals, h.nLiteralPayloadBytes, 20, h.nMatches, 40, h.literalBits + 7, 60)
  }

  function Word1(h: Header): nat
    requires |h.literalState| == 4 && h.lmdBits >= -7
  {
    Or(Or(Pack4(h.literalState[0], h.literalState[1], 10, h.literalState[2], 20, h.literalState[3], 30),
          Shl64(h.nLMDPayloadBytes, 40)),
       Shl64(h.lmdBits + 7, 60))
  }

  function Word2(h: Header, size: nat): nat {
    Pack4(size, h.lState, 32, h.mState, 42, h.dState, 52)
  }

  /** The fixed part of the header of a block whose frequency tables take nFreq bytes. */
  function FixedPart(h: Header, nFreq: nat): (b: seq<byte>)
    requires h.literalBits >= -7 && |h.literalState| == 4 && h.lmdBits >= -7
    ensures |b| == V2_HEADER_MIN_SIZE
  {
    PutLE(WORD_32, MAGIC_COMPRESSED_V2) + PutLE(WORD_32, h.nRawBytes)
    + PutLE(WORD_64, Word0(h)) + PutLE(WORD_64, Word1(h)) + PutLE(WORD_64, Word2(h, V2_HEADER_MIN_SIZE + nFreq))
  }

  /** 360 frequencies of at most 14 bits each. */
  const MAX_FREQ_BYTES: nat := 630

  /** hdr is a packed header for h: the fixed part and tables that decode to h's. */
  ghost predicate Packs(h: Header, hdr: seq<byte>) {
    && FieldsFit(h) && V2_HEADER_MIN_SIZE <= |hdr| <= V2_HEADER_MIN_SIZE + MAX_FREQ_BYTES
    && hdr[..V2_HEADER_MIN_SIZE] == FixedPart(h, |hdr| - V2_HEADER_MIN_SIZE)
    && DecodeFreqs(hdr[V2_HEADER_MIN_SIZE..], FREQ_SYMBOLS) == Some(AllFreqs(h))
  }

  method MakeV2Block(h: Header, payload: seq<byte>) returns (out: seq<byte>, ghost hdr: seq<byte>)
    requires FieldsFit(h) && forall v <- AllFreqs(h) :: v <= MAX_FREQ
    ensures Packs(h, hdr) && out == hdr + payload
  {
    assert AllFreqs(h) == h.lFreq + h.mFreq + h.dFreq + h.literalFreq;
    var freqBytes := EncodeV2FreqTableBitstream(h.lFreq, h.mFreq, h.dFreq, h.literalFreq);
    CodesSize(AllFreqs(h));
    var headerSize := V2_HEADER_MIN_SIZE + |freqBytes|;
    var v0, v1, v2 := Word0(h), Word1(h), Word2(h, headerSize);
    var fixed := PutLE(WORD_32, MAGIC_COMPRESSED_V2) + PutLE(WORD_32, h.nRawBytes)
                 + PutLE(WORD_64, v0) + PutLE(WORD_64, v1) + PutLE(WORD_64, v2);
    hdr := fixed + freqBytes;
    assert hdr[..V2_HEADER_MIN_SIZE] == fixed && hdr[V2_HEADER_MIN_SIZE..] == freqBytes;
    out := fixed + freqBytes + payload;
  }

  // ---------------------------------------------------------------- unpacking

  datatype V2 = V2(h: Header, size: nat)

  /** The header's fields, as the raw size, the three words and the decoded tables give them. */
  function Unpack(raw: nat, v0: nat, v1: nat, v2: nat, all: seq<nat>): (h: Header)
    requires |all| == FREQ_SYMBOLS
    ensures |h.lFreq| == 20 && |h.mFreq| == 20 && |h.dFreq| == 64 && |h.literalFreq| == 256 && |h.literalState| == 4
  {
    Header(
      raw, Low(v0, 20), Field(v0, 40, 20), Field(v0, 20, 20), Field(v1, 40, 20),
      Field(v0, 60, 3) - 7, [Field(v1, 0, 10), Field(v1, 10, 10), Field(v1, 20, 10), Field(v1, 30, 10)],
      Field(v1, 60, 3) - 7, Field(v2, 32, 10), Field(v2, 42, 10), Field(v2, 52, 10),
      all[..20], all[20..40], all[40..104], all[104..])
  }

  /** What the decoder demands of an unpacked header. */
  predicate Acceptable(h: Header) {
    && h.nLiterals <= LITERALS_PER_BLOCK && h.nMatches <= MATCHES_PER_BLOCK && h.nLiterals % 4 == 0
    && h.lState < Pow2(L_P) && h.mState < Pow2(M_P) && h.dState < Pow2(D_P) && FreqsFit(h)
  }

  function ReadV2Header(b: seq<byte>): (r: Option<V2>)
    ensures r.Some? ==> V2_HEADER_MIN_SIZE <= r.value.size <= |b|
  {
    if |b| < V2_HEADER_MIN_SIZE then None
    else
      var size := Low(LE(b[24..32]), 32);
      if size < V2_HEADER_MIN_SIZE || size > |b| then None
      else
        var all := DecodeFreqs(b[V2_HEADER_MIN_SIZE..size], FREQ_SYMBOLS);
        if all.None? then None
        else
          Verdict(Unpack(LE(b[4..8]), LE(b[8..16]), LE(b[16..24]), LE(b[24..32]), all.value), size)
  }

  function Verdict(h: Header, size: nat): Option<V2> {
    if Acceptable(h) then Some(V2(h, size)) else None
  }

  /** An accepted header is safe to decode with: all four initial literal states are in range without a check. */
  lemma AcceptedIsOk(b: seq<byte>)
    ensures var r := ReadV2Header(b); r.Some? ==> HeaderOk(r.value.h) && FreqsFit(r.value.h)
  {
    if ReadV2Header(b).Some? {
      var all := DecodeFreqs(b[V2_HEADER_MIN_SIZE..Low(LE(b[24..32]), 32)], FREQ_SYMBOLS).value;
      UnpackedStates(LE(b[4..8]), LE(b[8..16]), LE(b[16..24]), LE(b[24..32]), all);
    }
  }

  lemma UnpackedStates(raw: nat, v0: nat, v1: nat, v2: nat, all: seq<nat>)
    requires |all| == FREQ_SYMBOLS
    ensures var h := Unpack(raw, v0, v1, v2, all);
            StatesOk(h.literalState) && (Acceptable(h) ==> HeaderOk(h) && FreqsFit(h))
  {
    ShrLow(Shr(v1, 0), 10);
    ShrLow(Shr(v1, 10), 10);
    ShrLow(Shr(v1, 20), 10);
    ShrLow(Shr(v1, 30), 10);
  }

  method FreqSumOK(freq: seq<nat>, nstates: nat) returns (ok: bool)
    ensures ok <==> Sum(freq) <= nstates
  {
    var sum := 0;
    for i := 0 to |freq|
      invariant sum == Offset(freq, i)
    {
      OffsetStep(freq, i);
      sum := sum + freq[i];
    }
    assert freq[..|freq|] == freq;
    return sum <= nstates;
  }

  method DecodeV2Header(b: seq<byte>) returns (ok: bool, h: Header, headerSize: nat)
    ensures ReadV2Header(b) == if ok then Some(V2(h, headerSize)) else None
    ensures ok ==> V2_HEADER_MIN_SIZE <= headerSize <= |b|
    ensures ok ==> |h.lFreq| == 20 && |h.mFreq| == 20 && |h.dFreq| == 64 && |h.literalFreq| == 256
                   && |h.literalState| == 4
  {
    ok, headerSize := false, 0;
    h := Header(0, 0, 0, 0, 0, 0, [], 0, 0, 0, 0, [], [], [], []);
    if |b| < V2_HEADER_MIN_SIZE { return; }
    headerSize := Low(LE(b[24..32]), 32);
    if headerSize < V2_HEADER_MIN_SIZE || headerSize > |b| { return; }
    var all;
    ok, all := DecodeV2FreqTableBitstream(b[V2_HEADER_MIN_SIZE..headerSize], FREQ_SYMBOLS);
    if !ok { return; }
    h := Unpack(LE(b[4..8]), LE(b[8..16]), LE(b[16..24]), LE(b[24..32]), all);
    ok := CheckHeader(h);
  }

  method CheckHeader(h: Header) returns (ok: bool)
    ensures ok <==> Acceptable(h)
  {
    Pow2Values();
    if h.nLiterals > LITERALS_PER_BLOCK || h.nMatches > MATCHES_PER_BLOCK { return false; }
    if h.nLiterals % 4 != 0 { return false; }
    if h.lState >= 64 || h.mState >= 64 || h.dState >= 256 { return false; }
    var okL := FreqSumOK(h.lFreq, 64);
    var okM := FreqSumOK(h.mFreq, 64);
    var okD := FreqSumOK(h.dFreq, 256);
    var okLit := FreqSumOK(h.literalFreq, 1024);
    return okL && okM && okD && okLit;
  }

  // ---------------------------------------------------------------- the round trip

  lemma FieldWidths()
    ensures Pow2(3) == 8 && Pow2(10) == 1024 && Pow2(20) == 0x10_0000 && Pow2(32) == 0x1_0000_0000
  {
    Pow2Big();
    Pow2Values();
  }

  lemma FieldsInWidth(h: Header)
    requires FieldsFit(h)
    ensures h.nLiterals < Pow2(20) && h.nLiteralPayloadBytes < Pow2(20) && h.nMatches < Pow2(20)
    ensures h.nLMDPayloadBytes < Pow2(20) && 0 <= h.literalBits + 7 < Pow2(3) && 0 <= h.lmdBits + 7 < Pow2(3)
  {
    FieldWidths();
  }

  lemma StatesInWidth(h: Header)
    requires FieldsFit(h)
    ensures h.literalState[0] < Pow2(10) && h.literalState[1] < Pow2(10)
    ensures h.literalState[2] < Pow2(10) && h.literalState[3] < Pow2(10)
  {
  }

  /** Three 20-bit fields and a 3-bit count. */
  lemma FourFields(a: nat, b: nat, c: nat, d: nat) returns (v: nat)
    requires a < Pow2(20) && b < Pow2(20) && c < Pow2(20) && d < Pow2(3)
    ensures v == Pack4(a, b, 20, c, 40, d, 60)
    ensures v < U64 && Low(v, 20) == a && Field(v, 20, 20) == b && Field(v, 40, 20) == c && Field(v, 60, 3) == d
  {
    Pack4Fields(a, 20, b, 20, c, 20, d, 3);
    v := Pack4(a, b, 20, c, 40, d, 60);
  }

  lemma Word0Fields(h: Header) returns (v: nat)
    requires FieldsFit(h)
    ensures v == Word0(h) && v < U64
    ensures Low(v, 20) == h.nLiterals && Field(v, 20, 20) == h.nLiteralPayloadBytes
    ensures Field(v, 40, 20) == h.nMatches && Field(v, 60, 3) == h.literalBits + 7
  {
    FieldsInWidth(h);
    v := FourFields(h.nLiterals, h.nLiteralPayloadBytes, h.nMatches, h.literalBits + 7);
    IsWord0(h, h.nLiterals, h.nLiteralPayloadBytes, h.nMatches, h.literalBits + 7, v);
  }

  lemma IsWord0(h: Header, a: nat, b: nat, c: nat, d: nat, v: nat)
    requires h.literalBits >= -7
    requires a == h.nLiterals && b == h.nLiteralPayloadBytes && c == h.nMatches && d == h.literalBits + 7
    requires v == Pack4(a, b, 20, c, 40, d, 60)
    ensures v == Word0(h)
  {
  }

  /** Two more fields above x. */
  lemma AddTwoFields(x: nat, k: nat, y: nat, wy: nat, z: nat, wz: nat) returns (v: nat)
    requires x < Pow2(k) && y < Pow2(wy) && z < Pow2(wz) && k + wy < 64 && k + wy + wz <= 64
    ensures v == Or(Or(x, Shl64(y, k)), Shl64(z, k + wy)) && v < Pow2(k + wy + wz)
    ensures Field(v, k, wy) == y && Field(v, k + wy, wz) == z
    ensures forall at: nat, u: nat :: at + u <= k ==> Field(v, at, u) == Field(x, at, u)
  {
    var x1 := AddField(x, k, y, wy);
    v := AddField(x1, k + wy, z, wz);
  }

  /** Six fields: four states, then a 20-bit size and a 3-bit count. */
  lemma SixFields(s0: nat, s1: nat, s2: nat, s3: nat, size: nat, count: nat) returns (v: nat)
    requires s0 < Pow2(10) && s1 < Pow2(10) && s2 < Pow2(10) && s3 < Pow2(10) && size < Pow2(20) && count < Pow2(3)
    ensures v == Or(Or(Pack4(s0, s1, 10, s2, 20, s3, 30), Shl64(size, 40)), Shl64(count, 60)) && v < U64
    ensures Field(v, 0, 10) == s0 && Field(v, 10, 10) == s1 && Field(v, 20, 10) == s2 && Field(v, 30, 10) == s3
    ensures Field(v, 40, 20) == size && Field(v, 60, 3) == count
  {
    Pack4Fields(s0, 10, s1, 10, s2, 10, s3, 10);
    v := AddTwoFields(Pack4(s0, s1, 10, s2, 20, s3, 30), 40, size, 20, count, 3);
    Pow2Word(60 + 3);
  }

  lemma Word1Fields(h: Header) returns (v: nat)
    requires FieldsFit(h)
    ensures v == Word1(h) && v < U64
    ensures Field(v, 0, 10) == h.literalState[0] && Field(v, 10, 10) == h.literalState[1]
    ensures Field(v, 20, 10) == h.literalState[2] && Field(v, 30, 10) == h.literalState[3]
    ensures Field(v, 40, 20) == h.nLMDPayloadBytes && Field(v, 60, 3) == h.lmdBits + 7
  {
    FieldsInWidth(h);
    StatesInWidth(h);
    var st := h.literalState;
    v := SixFields(st[0], st[1], st[2], st[3], h.nLMDPayloadBytes, h.lmdBits + 7);
    IsWord1(h, st[0], st[1], st[2], st[3], h.nLMDPayloadBytes, h.lmdBits + 7, v);
  }

  lemma IsWord1(h: Header, s0: nat, s1: nat, s2: nat, s3: nat, size: nat, count: nat, v: nat)
    requires |h.literalState| == 4 && h.literalState[0] == s0 && h.literalState[1] == s1
    requires h.literalState[2] == s2 && h.literalState[3] == s3 && size == h.nLMDPayloadBytes && count == h.lmdBits + 7
    requires v == Or(Or(Pack4(s0, s1, 10, s2, 20, s3, 30), Shl64(size, 40)), Shl64(count, 60))
    ensures v == Word1(h)
  {
  }

  lemma Word2Fields(h: Header, size: nat) returns (v: nat)
    requires FieldsFit(h) && size < 0x1_0000_0000
    ensures v == Word2(h, size) && v < U64
    ensures Low(v, 32) == size
    ensures Field(v, 32, 10) == h.lState && Field(v, 42, 10) == h.mState && Field(v, 52, 10) == h.dState
  {
    FieldWidths();
    Pow2Mono(L_P, 10);
    Pow2Mono(D_P, 10);
    Pack4Fields(size, 32, h.lState, 10, h.mState, 10, h.dState, 10);
    v := Word2(h, size);
  }

  /** Where the words of a packed header stand. */
  lemma FixedSlices(h: Header, n: nat, b: seq<byte>)
    requires FieldsFit(h) && |b| >= V2_HEADER_MIN_SIZE && b[..V2_HEADER_MIN_SIZE] == FixedPart(h, n)
    ensures b[4..8] == PutLE(WORD_32, h.nRawBytes) && b[8..16] == PutLE(WORD_64, Word0(h))
    ensures b[16..24] == PutLE(WORD_64, Word1(h)) && b[24..32] == PutLE(WORD_64, Word2(h, V2_HEADER_MIN_SIZE + n))
    ensures b[..4] == PutLE(WORD_32, MAGIC_COMPRESSED_V2)
  {
    FiveParts(PutLE(WORD_32, MAGIC_COMPRESSED_V2), PutLE(WORD_32, h.nRawBytes), PutLE(WORD_64, Word0(h)),
              PutLE(WORD_64, Word1(h)), PutLE(WORD_64, Word2(h, V2_HEADER_MIN_SIZE + n)), b);
  }

  lemma FixedMagic(h: Header, n: nat, b: seq<byte>)
    requires FieldsFit(h) && |b| >= V2_HEADER_MIN_SIZE && b[..V2_HEADER_MIN_SIZE] == FixedPart(h, n)
    ensures b[..4] == PutLE(WORD_32, MAGIC_COMPRESSED_V2)
  {
    FixedSlices(h, n, b);
  }

  lemma FiveParts(p: seq<byte>, q: seq<byte>, r: seq<byte>, s: seq<byte>, t: seq<byte>, b: seq<byte>)
    requires |p| == 4 && |q| == 4 && |r| == 8 && |s| == 8 && |t| == 8
    requires |b| >= 32 && b[..32] == p + q + r + s + t
    ensures b[..4] == p && b[4..8] == q && b[8..16] == r && b[16..24] == s && b[24..32] == t
  {
    var c := b[..32];
    assert b[..4] == c[..4] && b[4..8] == c[4..8] && b[8..16] == c[8..16];
    assert b[16..24] == c[16..24] && b[24..32] == c[24..32];
  }

  lemma WordsRead(h: Header, n: nat, b: seq<byte>)
    requires FieldsFit(h) && |b| >= V2_HEADER_MIN_SIZE && b[..V2_HEADER_MIN_SIZE] == FixedPart(h, n)
    requires V2_HEADER_MIN_SIZE + n < 0x1_0000_0000
    ensures LE(b[4..8]) == h.nRawBytes && LE(b[8..16]) == Word0(h) && LE(b[16..24]) == Word1(h)
    ensures LE(b[24..32]) == Word2(h, V2_HEADER_MIN_SIZE + n)
  {
    Pow2Big();
    FixedSlices(h, n, b);
    var v0 := Word0Fields(h);
    var v1 := Word1Fields(h);
    var v2 := Word2Fields(h, V2_HEADER_MIN_SIZE + n);
    PutLERoundTrip(WORD_32, h.nRawBytes);
    PutLERoundTrip(WORD_64, Word0(h));
    PutLERoundTrip(WORD_64, Word1(h));
    PutLERoundTrip(WORD_64, Word2(h, V2_HEADER_MIN_SIZE + n));
  }

  lemma FreqSlices(h: Header)
    requires HeaderOk(h)
    ensures var all := AllFreqs(h);
            && |all| == FREQ_SYMBOLS
            && all[..20] == h.lFreq && all[20..40] == h.mFreq && all[40..104] == h.dFreq && all[104..] == h.literalFreq
  {
  }

  lemma UnpackFields(h: Header, v0: nat, v1: nat, v2: nat)
    requires HeaderOk(h)
    requires Low(v0, 20) == h.nLiterals && Field(v0, 20, 20) == h.nLiteralPayloadBytes
    requires Field(v0, 40, 20) == h.nMatches && Field(v0, 60, 3) == h.literalBits + 7
    requires Field(v1, 0, 10) == h.literalState[0] && Field(v1, 10, 10) == h.literalState[1]
    requires Field(v1, 20, 10) == h.literalState[2] && Field(v1, 30, 10) == h.literalState[3]
    requires Field(v1, 40, 20) == h.nLMDPayloadBytes && Field(v1, 60, 3) == h.lmdBits + 7
    requires Field(v2, 32, 10) == h.lState && Field(v2, 42, 10) == h.mState && Field(v2, 52, 10) == h.dState
    ensures |AllFreqs(h)| == FREQ_SYMBOLS && Unpack(h.nRawBytes, v0, v1, v2, AllFreqs(h)) == h
  {
    FreqSlices(h);
    var st := h.literalState;
    assert st == [st[0], st[1], st[2], st[3]];
  }

  lemma ReadFromParts(b: seq<byte>, size: nat, raw: nat, v0: nat, v1: nat, v2: nat, all: seq<nat>, h: Header)
    requires V2_HEADER_MIN_SIZE <= size <= |b| && |all| == FREQ_SYMBOLS
    requires raw == LE(b[4..8]) && v0 == LE(b[8..16]) && v1 == LE(b[16..24]) && v2 == LE(b[24..32])
    requires Low(v2, 32) == size && DecodeFreqs(b[V2_HEADER_MIN_SIZE..size], FREQ_SYMBOLS) == Some(all)
    requires Unpack(raw, v0, v1, v2, all) == h
    ensures ReadV2Header(b) == Verdict(h, size)
  {
  }

  /** A packed header in front of other bytes. */
  lemma HeaderPrefix(hdr: seq<byte>, b: seq<byte>)
    requires hdr <= b && |hdr| >= V2_HEADER_MIN_SIZE
    ensures b[..V2_HEADER_MIN_SIZE] == hdr[..V2_HEADER_MIN_SIZE]
    ensures b[V2_HEADER_MIN_SIZE..|hdr|] == hdr[V2_HEADER_MIN_SIZE..]
  {
    assert b[..|hdr|] == hdr;
  }

  /** The first words of a packed header, and what they unpack to. */
  lemma PackedWords(h: Header, size: nat, b: seq<byte>) returns (raw: nat, v0: nat, v1: nat, v2: nat)
    requires FieldsFit(h) && V2_HEADER_MIN_SIZE <= size <= |b| && size < 0x1_0000_0000
    requires b[..V2_HEADER_MIN_SIZE] == FixedPart(h, size - V2_HEADER_MIN_SIZE)
    ensures raw == LE(b[4..8]) && v0 == LE(b[8..16]) && v1 == LE(b[16..24]) && v2 == LE(b[24..32])
    ensures Low(v2, 32) == size && |AllFreqs(h)| == FREQ_SYMBOLS && Unpack(raw, v0, v1, v2, AllFreqs(h)) == h
  {
    WordsRead(h, size - V2_HEADER_MIN_SIZE, b);
    raw := h.nRawBytes;
    v0 := Word0Fields(h);
    v1 := Word1Fields(h);
    v2 := Word2Fields(h, size);
    UnpackFields(h, v0, v1, v2);
  }

  lemma PackedReads(h: Header, size: nat, b: seq<byte>)
    requires FieldsFit(h) && V2_HEADER_MIN_SIZE <= size <= |b| && size < 0x1_0000_0000
    requires b[..V2_HEADER_MIN_SIZE] == FixedPart(h, size - V2_HEADER_MIN_SIZE)
    requires DecodeFreqs(b[V2_HEADER_MIN_SIZE..size], FREQ_SYMBOLS) == Some(AllFreqs(h))
    ensures ReadV2Header(b) == Verdict(h, size)
  {
    var raw, v0, v1, v2 := PackedWords(h, size, b);
    ReadFromParts(b, size, raw, v0, v1, v2, AllFreqs(h), h);
  }

  /**
   * The header round trip: whatever follows it, a packed header is read back as exactly the header that was
   * packed when it is acceptable, and refused when it is not.
   */
  lemma HeaderRoundTrip(h: Header, hdr: seq<byte>, b: seq<byte>)
    requires Packs(h, hdr) && hdr <= b
    ensures ReadV2Header(b) == if Acceptable(h) then Some(V2(h, |hdr|)) else None
  {
    HeaderPrefix(hdr, b);
    PackedReads(h, |hdr|, b);
  }
}
