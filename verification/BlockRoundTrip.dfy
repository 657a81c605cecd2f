/** A block whose header and payload come from the encoder decodes to the replay of its records. */
module BlockRoundTrip {
  import opened Bits
  import opened FseTables
  import opened FseStream
  import opened FseCoder
  import opened Records
  import opened BlockSpec
  import opened BlockDecode
  import opened BlockReversal

  function FreqsOf(h: Header): Freqs {
    Freqs(h.lFreq, h.mFreq, h.dFreq)
  }

  /** The literal half of a block: header fields and payload bytes for these literals. */
  ghost predicate EncodesLiterals(h: Header, lit: seq<byte>, lits: seq<byte>) {
    && LitsEncodable(h.literalFreq, lits) && h.nLiterals == |lits| && h.nLiteralPayloadBytes == |lit|
    && Spells(lit, EncodeLits(h.literalFreq, lits).bits, h.literalBits)
    && h.literalState == EncodeLits(h.literalFreq, lits).st
  }

  const LMD_PAD_BYTES := 8

  /** The L/M/D half: eight bytes of padding, then the finished stream. */
  ghost predicate EncodesRecords(h: Header, lmd: seq<byte>, recs: seq<Rec>) {
    && AllEncodable(FreqsOf(h), recs) && h.nMatches == |recs| && h.nLMDPayloadBytes == |lmd|
    && |lmd| >= LMD_PAD_BYTES
    && var e := EncodeRecs(FreqsOf(h), recs);
       && Spells(lmd[LMD_PAD_BYTES..], e.bits, h.lmdBits)
       && h.lState == e.l && h.mState == e.m && h.dState == e.d
  }

  /** h, lit and lmd are the encoded form of these literals and records. */
  ghost predicate EncodesBlock(h: Header, lit: seq<byte>, lmd: seq<byte>, lits: seq<byte>, recs: seq<Rec>) {
    HeaderOk(h) && FreqsFit(h) && EncodesLiterals(h, lit, lits) && EncodesRecords(h, lmd, recs)
  }

  lemma BuiltTablesInvert(h: Header, was: Tables)
    requires HeaderOk(h) && FreqsFit(h) && TablesOk(was)
    ensures TablesOk(BuildTables(h, was))
    ensures InvertsLits(BuildTables(h, was).lit, h.literalFreq)
    ensures InvertsLmd(BuildTables(h, was), FreqsOf(h))
  {
    BuiltTablesOk(h, was);
  }

  lemma LiteralsComeBack(h: Header, t: Tables, front: seq<byte>, lit: seq<byte>, lits: seq<byte>)
    requires HeaderOk(h) && TablesOk(t) && InvertsLits(t.lit, h.literalFreq)
    requires EncodesLiterals(h, lit, lits) && |front| >= 7
    ensures InInit(front + lit, |front + lit|, h.literalBits).Some?
    ensures Literals(h, front + lit, t) == lits
  {
    var bits := EncodeLits(h.literalFreq, lits).bits;
    OpensOnContent(front, lit, bits, h.literalBits);
    var buf := front + lit;
    var input := InInit(buf, |buf|, h.literalBits).value;
    var n := h.nLiterals / 4;
    LiteralsReversal(t.lit, h.literalFreq, lits, buf, input, BytesToBits(front), n);
    assert LitRun(t.lit, buf, input, h.literalState, n) == lits;
  }

  lemma RecordsComeBack(h: Header, t: Tables, lmd: seq<byte>, recs: seq<Rec>)
    requires HeaderOk(h) && TablesOk(t) && InvertsLmd(t, FreqsOf(h)) && EncodesRecords(h, lmd, recs)
    ensures InInit(lmd, |lmd|, h.lmdBits).Some?
    ensures LmdRecords(h, lmd, t) == recs
  {
    var front, body := lmd[..LMD_PAD_BYTES], lmd[LMD_PAD_BYTES..];
    OpensOnContent(front, body, EncodeRecs(FreqsOf(h), recs).bits, h.lmdBits);
    assert lmd == front + body;
    var s := LmdState(h.lState, h.mState, h.dState, InInit(lmd, |lmd|, h.lmdBits).value);
    RecordsReversal(t, FreqsOf(h), recs, lmd, s, BytesToBits(front));
  }

  lemma StreamsInPlace(h: Header, lit: seq<byte>, lmd: seq<byte>, t: Tables,
                       src: seq<byte>, start: nat, prior: seq<byte>, r: Option<seq<byte>>)
    requires HeaderOk(h) && TablesOk(t) && h.nLiteralPayloadBytes == |lit| && h.nLMDPayloadBytes == |lmd|
    requires PayloadAt(src, start, lit, lmd) && IsPayload(h, src[..start] + lit, lmd, prior, t, r)
    ensures DecodeBlock(h, src, start, prior, t) == r
  {
    assert LiteralPart(h, src, start) == src[..start] + lit && LmdPart(h, src, start) == lmd;
    BlockResult(h, src, start, prior, t, r);
  }

  lemma StreamsComeBack(h: Header, lit: seq<byte>, lmd: seq<byte>, lits: seq<byte>, recs: seq<Rec>, t: Tables,
                        front: seq<byte>, prior: seq<byte>, r: Option<seq<byte>>)
    requires EncodesBlock(h, lit, lmd, lits, recs)
    requires TablesOk(t) && InvertsLits(t.lit, h.literalFreq) && InvertsLmd(t, FreqsOf(h))
    requires 7 <= |front| && ReplaysTo(prior, lits, 0, recs, r)
    ensures IsPayload(h, front + lit, lmd, prior, t,
                      if r.Some? && |r.value| - |prior| == h.nRawBytes then r else None)
  {
    LiteralsComeBack(h, t, front, lit, lits);
    RecordsComeBack(h, t, lmd, recs);
    PayloadReplays(h, front + lit, lmd, prior, t, lits, recs, r);
  }

  /** The two halves of a payload stand one after the other at src[start..]. */
  predicate PayloadAt(src: seq<byte>, start: nat, lit: seq<byte>, lmd: seq<byte>) {
    && start + |lit| + |lmd| <= |src|
    && src[start..start + |lit|] == lit && src[start + |lit|..start + |lit| + |lmd|] == lmd
  }

  /**
   * The block round trip: whatever stands in front of the payload, whatever tables an earlier block left and
   * whatever follows, decoding the encoder's header and payload is replaying the encoder's records.
   */
  lemma DecodesToReplay(h: Header, lit: seq<byte>, lmd: seq<byte>, lits: seq<byte>, recs: seq<Rec>, was: Tables,
                        src: seq<byte>, start: nat, prior: seq<byte>)
    requires EncodesBlock(h, lit, lmd, lits, recs) && TablesOk(was)
    requires 7 <= start && PayloadAt(src, start, lit, lmd)
    ensures TablesOk(BuildTables(h, was))
    ensures var r := Replay(prior, lits, 0, recs);
            DecodeBlock(h, src, start, prior, BuildTables(h, was))
            == if r.Some? && |r.value| - |prior| == h.nRawBytes then r else None
  {
    BuiltTablesInvert(h, was);
    StreamsDecode(h, lit, lmd, lits, recs, BuildTables(h, was), src, start, prior, Replay(prior, lits, 0, recs));
  }

  lemma StreamsDecode(h: Header, lit: seq<byte>, lmd: seq<byte>, lits: seq<byte>, recs: seq<Rec>, t: Tables,
                      src: seq<byte>, start: nat, prior: seq<byte>, r: Option<seq<byte>>)
    requires EncodesBlock(h, lit, lmd, lits, recs)
    requires TablesOk(t) && InvertsLits(t.lit, h.literalFreq) && InvertsLmd(t, FreqsOf(h))
    requires 7 <= start && PayloadAt(src, start, lit, lmd) && ReplaysTo(prior, lits, 0, recs, r)
    ensures DecodeBlock(h, src, start, prior, t)
            == if r.Some? && |r.value| - |prior| == h.nRawBytes then r else None
  {
    StreamsComeBack(h, lit, lmd, lits, recs, t, src[..start], prior, r);
    StreamsInPlace(h, lit, lmd, t, src, start, prior,
                   if r.Some? && |r.value| - |prior| == h.nRawBytes then r else None);
  }

  lemma PayloadReplays(h: Header, lit: seq<byte>, lmd: seq<byte>, prior: seq<byte>, t: Tables,
                       lits: seq<byte>, recs: seq<Rec>, r: Option<seq<byte>>)
    requires HeaderOk(h) && TablesOk(t) && h.nLiterals % 4 == 0
    requires InInit(lit, |lit|, h.literalBits).Some? && Literals(h, lit, t) == lits
    requires InInit(lmd, |lmd|, h.lmdBits).Some? && LmdRecords(h, lmd, t) == recs
    requires ReplaysTo(prior, lits, 0, recs, r)
    ensures IsPayload(h, lit, lmd, prior, t, if r.Some? && |r.value| - |prior| == h.nRawBytes then r else None)
  {
  }

  // ---------------------------------------------------------------- sizes

  lemma PushLitSize(freqs: seq<nat>, e: LitEnc, ch: nat, b: nat)
    requires Encodable(freqs, LIT_P, b) && StatesOk(e.st) && ch < 4
    ensures |PushLit(freqs, e, ch, b).bits| <= |e.bits| + LIT_P
  {
    StepBitsBound(freqs, LIT_P, 0, Coded(b, 0), e.st[ch]);
  }

  /** A literal takes at most 10 bits. */
  lemma {:induction false} EncodeLitsSize(freqs: seq<nat>, lits: seq<byte>)
    requires LitsEncodable(freqs, lits)
    ensures |EncodeLits(freqs, lits).bits| <= 10 * |lits|
  {
    if lits == [] {
    } else {
      GroupEncodable(freqs, lits);
      EncodeLitsSize(freqs, lits[4..]);
      var e := EncodeLits(freqs, lits[4..]);
      PushGroupSize(freqs, e, lits[0], lits[1], lits[2], lits[3]);
    }
  }

  lemma PushGroupSize(freqs: seq<nat>, e: LitEnc, b0: nat, b1: nat, b2: nat, b3: nat)
    requires StatesOk(e.st)
    requires Encodable(freqs, LIT_P, b0) && Encodable(freqs, LIT_P, b1)
    requires Encodable(freqs, LIT_P, b2) && Encodable(freqs, LIT_P, b3)
    ensures |PushGroup(freqs, e, b0, b1, b2, b3).bits| <= |e.bits| + 40
  {
    var e3 := PushLit(freqs, e, 3, b3);
    PushLitSize(freqs, e, 3, b3);
    var e2 := PushLit(freqs, e3, 2, b2);
    PushLitSize(freqs, e3, 2, b2);
    var e1 := PushLit(freqs, e2, 1, b1);
    PushLitSize(freqs, e2, 1, b1);
    PushLitSize(freqs, e1, 0, b0);
  }

  lemma PushValueSize(c: Chan, e: ValEnc, v: int)
    requires CanPush(c, v) && e.state < Pow2(c.p)
    ensures |PushValue(c, e, v).bits| <= |e.bits| + c.maxExtra + c.p
  {
    var x := CodedValue(c, v);
    StepBitsBound(c.freqs, c.p, c.extra[x.sym], x, e.state);
  }

  /** A record takes at most 54 bits. */
  lemma {:induction false} EncodeRecsSize(f: Freqs, recs: seq<Rec>)
    requires AllEncodable(f, recs)
    ensures |EncodeRecs(f, recs).bits| <= 54 * |recs|
  {
    if recs == [] {
    } else {
      RestEncodable(f, recs);
      EncodeRecsSize(f, recs[1..]);
      PushRecSize(f, EncodeRecs(f, recs[1..]), recs[0]);
    }
  }

  lemma PushRecSize(f: Freqs, e: LmdEnc, r: Rec)
    requires RecEncodable(f, r) && LmdEncOk(e)
    ensures |PushRec(f, e, r).bits| <= |e.bits| + 54
  {
    var d, m, l := RecPushes(f, e, r);
    PushValueSize(DChan(f.d), ValEnc(e.bits, e.d), r.D);
    PushValueSize(MChan(f.m), ValEnc(d.bits, e.m), r.M);
    PushValueSize(LChan(f.l), ValEnc(m.bits, e.l), r.L);
  }

  /** Every field of an encoded block's header fits the packed header, whenever the counts are in range. */
  lemma HeaderFieldsFit(h: Header, lit: seq<byte>, lmd: seq<byte>, lits: seq<byte>, recs: seq<Rec>)
    requires EncodesBlock(h, lit, lmd, lits, recs)
    ensures HeaderOk(h) && FreqsFit(h) && h.nLiterals == |lits| && |lits| % 4 == 0 && h.nMatches == |recs|
    ensures -7 <= h.literalBits <= 0 && -7 <= h.lmdBits <= 0
    ensures 8 * h.nLiteralPayloadBytes <= 10 * h.nLiterals + 7
    ensures 8 * h.nLMDPayloadBytes <= 54 * h.nMatches + 71
  {
    EncodeLitsSize(h.literalFreq, lits);
    EncodeRecsSize(FreqsOf(h), recs);
  }
}
