/** Compress and its three stream forms, and when Decompress gives the source back. */
module Compress {
  import opened Bits
  import opened Records
  import opened BlockSpec
  import opened BlockRoundTrip
  import opened BlockEncode
  import opened FreqCode
  import opened V1Header
  import opened V2Header
  import opened Decompress
  import FindMatches
  import Splitter
  import LzvnEmit
  import LzvnSearch
  import LzvnEncode

  // ---------------------------------------------------------------- blocks and streams

  /** One block of a compressed stream: raw bytes, or a packed header and two payload streams for a parse. */
  datatype Block =
    | Stored(end: nat)
    | Packed(end: nat, ms: seq<Match>, h: Header, hdr: seq<byte>, lit: seq<byte>, lmd: seq<byte>, pad: seq<byte>)

  /** A packed block for src[start..b.end], within the literal limit. */
  ghost predicate IsPacked(src: seq<byte>, start: nat, b: Block)
    requires b.Packed?
  {
    && BlockFor(src, start, b.ms, b.end, b.h, b.lit, b.lmd, b.pad)
    && Packs(b.h, b.hdr) && b.h.nLiterals <= LITERALS_PER_BLOCK
  }

  /** b is a block for src[start..b.end]. */
  ghost predicate Encodes(src: seq<byte>, start: nat, b: Block) {
    start < b.end <= |src| && (b.Packed? ==> forall s: nat :: s == start ==> IsPacked(src, s, b))
  }

  function StoredBlock(raw: seq<byte>): seq<byte> {
    PutLE(WORD_32, MAGIC_UNCOMPRESSED) + PutLE(WORD_32, |raw|) + raw
  }

  function BlockBytes(src: seq<byte>, start: nat, b: Block): seq<byte>
    requires start <= b.end <= |src|
  {
    match b
    case Stored(end) => StoredBlock(src[start..end])
    case Packed(_, _, _, hdr, lit, lmd, _) => hdr + (lit + lmd)
  }

  /** The blocks partition src[start..end] in order. */
  ghost predicate Partition(src: seq<byte>, start: nat, bs: seq<Block>, end: nat)
    decreases |bs|
  {
    if bs == [] then start == end <= |src|
    else Encodes(src, start, bs[0]) && Partition(src, bs[0].end, bs[1..], end)
  }

  ghost function StreamBytes(src: seq<byte>, start: nat, bs: seq<Block>, end: nat): seq<byte>
    requires Partition(src, start, bs, end)
    decreases |bs|
  {
    if bs == [] then []
    else BlockBytes(src, start, bs[0]) + StreamBytes(src, bs[0].end, bs[1..], end)
  }

  /** The block's record count is one the decoder accepts. */
  predicate RecordsFit(b: Block) {
    b.Packed? ==> b.h.nMatches <= MATCHES_PER_BLOCK
  }

  ghost predicate AllRecordsFit(bs: seq<Block>) {
    forall b <- bs :: RecordsFit(b)
  }

  /**
   * What a stream of these blocks for src decodes to under a ceiling: the source, or an error at the first block
   * that has too many records or goes past the ceiling, whichever comes first.
   */
  function OutcomeOf(src: seq<byte>, bs: seq<Block>, maxOut: nat): Outcome {
    if bs == [] then Decoded(src)
    else if !RecordsFit(bs[0]) then Invalid
    else if bs[0].end > maxOut then TooLarge
    else OutcomeOf(src, bs[1..], maxOut)
  }

  lemma {:induction false} PartitionGrows(src: seq<byte>, start: nat, bs: seq<Block>, mid: nat, b: Block)
    requires Partition(src, start, bs, mid) && Encodes(src, mid, b)
    ensures Partition(src, start, bs + [b], b.end)
    ensures StreamBytes(src, start, bs + [b], b.end) == StreamBytes(src, start, bs, mid) + BlockBytes(src, mid, b)
    decreases |bs|
  {
    if bs == [] {
      assert ([] + [b])[1..] == [];
    } else {
      assert (bs + [b])[1..] == bs[1..] + [b];
      PartitionGrows(src, bs[0].end, bs[1..], mid, b);
      SeqAssoc(BlockBytes(src, start, bs[0]), StreamBytes(src, bs[0].end, bs[1..], mid), BlockBytes(src, mid, b));
    }
  }

  // ---------------------------------------------------------------- one block decodes

  predicate StandsAt(stream: seq<byte>, pos: nat, s: seq<byte>) {
    pos + |s| <= |stream| && stream[pos..pos + |s|] == s
  }

  /** s stands at stream[pos..], as a fact to pass around. */
  ghost predicate At(stream: seq<byte>, pos: nat, s: seq<byte>) {
    forall p: nat :: p == pos ==> StandsAt(stream, p, s)
  }

  lemma AtParts(stream: seq<byte>, pos: nat, a: seq<byte>, b: seq<byte>)
    requires At(stream, pos, a + b)
    ensures At(stream, pos, a) && At(stream, pos + |a|, b)
    ensures pos + |a| + |b| <= |stream|
  {
    assert StandsAt(stream, pos, a + b);
    var s := stream[pos..pos + |a| + |b|];
    assert stream[pos..pos + |a|] == s[..|a|] && stream[pos + |a|..pos + |a| + |b|] == s[|a|..];
  }

  /** A little-endian 32-bit field reads back. */
  lemma Word32At(stream: seq<byte>, pos: nat, v: nat)
    requires v < 0x1_0000_0000 && At(stream, pos, PutLE(WORD_32, v))
    ensures pos + 4 <= |stream| && LE(stream[pos..pos + 4]) == v
  {
    assert StandsAt(stream, pos, PutLE(WORD_32, v));
    Pow2Big();
    PutLERoundTrip(WORD_32, v);
  }

  /** One turn leads from pos and out to next and out'. */
  ghost predicate StepsTo(stream: seq<byte>, pos: nat, out: seq<byte>, t: Tables, maxOut: nat,
                          next: nat, out': seq<byte>, t': Tables)
  {
    && pos < |stream| && TablesOk(t) && TablesOk(t')
    && forall p: nat :: p == pos ==> DecodeStep(stream, p, out, t, maxOut) == Next(next, out', t')
  }

  lemma StepsWhenNext(stream: seq<byte>, pos: nat, out: seq<byte>, t: Tables, maxOut: nat, r: Step)
    requires pos < |stream| && TablesOk(t) && DecodeStep(stream, pos, out, t, maxOut) == r && r.Next?
    ensures StepsTo(stream, pos, out, t, maxOut, r.pos, r.out, r.t)
  {
  }

  lemma StepStops(stream: seq<byte>, pos: nat, out: seq<byte>, t: Tables, maxOut: nat, r: Outcome)
    requires pos < |stream| && TablesOk(t) && DecodeStep(stream, pos, out, t, maxOut) == Stop(r)
    ensures DecodesTo(stream, pos, out, t, maxOut, r)
  {
  }

  /** A stored block's step, whatever the ceiling. */
  lemma StoredStepIs(src: seq<byte>, start: nat, end: nat, stream: seq<byte>, pos: nat, t: Tables, maxOut: nat)
    requires start <= end <= |src| && end - start < 0x1_0000_0000 && TablesOk(t)
    requires At(stream, pos, StoredBlock(src[start..end]))
    ensures pos < |stream|
    ensures DecodeStep(stream, pos, src[..start], t, maxOut)
            == if end > maxOut then Stop(TooLarge)
               else Next(pos + |StoredBlock(src[start..end])|, src[..end], t)
  {
    var raw := src[start..end];
    AtParts(stream, pos, PutLE(WORD_32, MAGIC_UNCOMPRESSED) + PutLE(WORD_32, |raw|), raw);
    assert StandsAt(stream, pos + 8, raw);
    AtParts(stream, pos, PutLE(WORD_32, MAGIC_UNCOMPRESSED), PutLE(WORD_32, |raw|));
    Word32At(stream, pos, MAGIC_UNCOMPRESSED);
    Word32At(stream, pos + 4, |raw|);
    assert src[..end] == src[..start] + raw;
    KindOfMagic();
    var r := StoredStep(stream, pos, src[..start], t, maxOut);
    StepByKind(stream, pos, src[..start], t, maxOut, Uncompressed, r);
  }

  lemma StoredDecodes(src: seq<byte>, start: nat, end: nat, stream: seq<byte>, pos: nat, t: Tables, maxOut: nat)
    requires start <= end <= |src| && end <= maxOut && end - start < 0x1_0000_0000 && TablesOk(t)
    requires At(stream, pos, StoredBlock(src[start..end]))
    ensures StepsTo(stream, pos, src[..start], t, maxOut, pos + |StoredBlock(src[start..end])|, src[..end], t)
  {
    StoredStepIs(src, start, end, stream, pos, t, maxOut);
    var next := pos + |StoredBlock(src[start..end])|;
    StepsWhenNext(stream, pos, src[..start], t, maxOut, Next(next, src[..end], t));
  }

  lemma StoredTooLarge(src: seq<byte>, start: nat, end: nat, stream: seq<byte>, pos: nat, t: Tables, maxOut: nat)
    requires start <= end <= |src| && maxOut < end && end - start < 0x1_0000_0000 && TablesOk(t)
    requires At(stream, pos, StoredBlock(src[start..end]))
    ensures DecodesTo(stream, pos, src[..start], t, maxOut, TooLarge)
  {
    StoredStepIs(src, start, end, stream, pos, t, maxOut);
    StepStops(stream, pos, src[..start], t, maxOut, TooLarge);
  }

  lemma KindOfMagic()
    ensures KindOf(MAGIC_END_OF_STREAM) == EndOfStream && KindOf(MAGIC_UNCOMPRESSED) == Uncompressed
    ensures KindOf(MAGIC_COMPRESSED_V2) == CompressedV2 && KindOf(MAGIC_COMPRESSED_LZVN) == CompressedLzvn
  {
  }

  /** The decoder's checks on a packed header come down to the record count. */
  lemma AcceptableWhenFit(src: seq<byte>, start: nat, b: Block)
    requires b.Packed? && Encodes(src, start, b)
    ensures Packs(b.h, b.hdr) && (Acceptable(b.h) <==> RecordsFit(b))
  {
    assert IsPacked(src, start, b);
  }

  /** The sizes a block's header declares. */
  lemma BlockSizes(src: seq<byte>, start: nat, b: Block)
    requires b.Packed? && Encodes(src, start, b)
    ensures HeaderOk(b.h) && FreqsFit(b.h) && b.h.nRawBytes == b.end - start
    ensures b.h.nLiteralPayloadBytes == |b.lit| && b.h.nLMDPayloadBytes == |b.lmd|
  {
    assert IsPacked(src, start, b);
  }

  lemma PayloadInPlace(stream: seq<byte>, pos: nat, lit: seq<byte>, lmd: seq<byte>)
    requires At(stream, pos, lit + lmd)
    ensures pos + |lit| + |lmd| <= |stream|
    ensures PayloadAt(stream[..pos + |lit| + |lmd|], pos, lit, lmd)
  {
    AtParts(stream, pos, lit, lmd);
    assert StandsAt(stream, pos, lit) && StandsAt(stream, pos + |lit|, lmd);
    var end := pos + |lit| + |lmd|;
    assert stream[..end][pos..pos + |lit|] == stream[pos..pos + |lit|];
    assert stream[..end][pos + |lit|..end] == stream[pos + |lit|..end];
  }

  /** The block whose payload is stream[pos..end] turns out into r. */
  ghost predicate Turns(h: Header, stream: seq<byte>, pos: nat, end: nat, out: seq<byte>, t: Tables, r: seq<byte>) {
    && HeaderOk(h) && FreqsFit(h) && TablesOk(t) && TablesOk(BuildTables(h, t))
    && end == pos + h.nLiteralPayloadBytes + h.nLMDPayloadBytes <= |stream|
    && forall p: nat :: p == pos ==> DecodeBlock(h, stream[..end], p, out, BuildTables(h, t)) == Some(r)
  }

  lemma PayloadTurns(src: seq<byte>, start: nat, b: Block, stream: seq<byte>, pos: nat, t: Tables)
    requires b.Packed? && Encodes(src, start, b) && TablesOk(t)
    requires 7 <= pos && At(stream, pos, b.lit + b.lmd)
    ensures Turns(b.h, stream, pos, pos + |b.lit| + |b.lmd|, src[..start], t, src[..b.end])
    ensures b.h.nRawBytes == b.end - start
  {
    BlockSizes(src, start, b);
    PayloadInPlace(stream, pos, b.lit, b.lmd);
    BlockDecodes(src, start, b, t, stream[..pos + |b.lit| + |b.lmd|], pos);
  }

  lemma BlockDecodes(src: seq<byte>, start: nat, b: Block, t: Tables, stream: seq<byte>, pos: nat)
    requires b.Packed? && Encodes(src, start, b) && TablesOk(t)
    requires 7 <= pos && PayloadAt(stream, pos, b.lit, b.lmd)
    ensures HeaderOk(b.h) && FreqsFit(b.h) && TablesOk(BuildTables(b.h, t))
    ensures DecodeBlock(b.h, stream, pos, src[..start], BuildTables(b.h, t)) == Some(src[..b.end])
  {
    assert IsPacked(src, start, b);
    EncodedBlockDecodes(src, start, b.ms, b.end, b.h, b.lit, b.lmd, b.pad, t, stream, pos);
  }

  /** A block that decodes passes the checks before it, but the ceiling. */
  lemma DecodedStep(h: Header, stream: seq<byte>, pos: nat, end: nat, out: seq<byte>, t: Tables, maxOut: nat,
                    r: seq<byte>)
    requires Turns(h, stream, pos, end, out, t, r) && |out| + h.nRawBytes <= maxOut
    ensures CompressedIs(h, stream, pos, out, t, maxOut, Next(end, r, BuildTables(h, t)))
  {
    assert DecodeBlock(h, stream[..end], pos, out, BuildTables(h, t)) == Some(r);
    RawCheckIsSound(h, stream[..end], pos, out, BuildTables(h, t));
    BlockStep(h, stream, pos, out, t, maxOut, Some(r));
  }

  lemma LargeStep(h: Header, stream: seq<byte>, pos: nat, end: nat, out: seq<byte>, t: Tables, maxOut: nat,
                  r: seq<byte>)
    requires Turns(h, stream, pos, end, out, t, r) && |out| + h.nRawBytes > maxOut
    ensures CompressedIs(h, stream, pos, out, t, maxOut, Stop(TooLarge))
  {
    assert DecodeBlock(h, stream[..end], pos, out, BuildTables(h, t)) == Some(r);
    RawCheckIsSound(h, stream[..end], pos, out, BuildTables(h, t));
    BlockTooLarge(h, stream, pos, out, t, maxOut);
  }

  /** A packed header in a stream: its magic, and what the decoder reads. */
  lemma HeaderAt(h: Header, hdr: seq<byte>, stream: seq<byte>, pos: nat)
    requires Packs(h, hdr) && At(stream, pos, hdr)
    ensures pos + 4 <= |stream| && LE(stream[pos..pos + 4]) == MAGIC_COMPRESSED_V2
    ensures ReadV2Header(stream[pos..]) == if Acceptable(h) then Some(V2(h, |hdr|)) else None
  {
    HeaderInPlace(hdr, stream, pos);
    HeaderRoundTrip(h, hdr, stream[pos..]);
    HeaderMagic(h, hdr, stream, pos);
  }

  lemma HeaderInPlace(hdr: seq<byte>, stream: seq<byte>, pos: nat)
    requires At(stream, pos, hdr) && |hdr| >= 4
    ensures pos + |hdr| <= |stream| && hdr <= stream[pos..] && At(stream, pos, hdr[..4])
  {
    assert StandsAt(stream, pos, hdr);
    assert stream[pos..][..|hdr|] == hdr;
    assert stream[pos..pos + 4] == hdr[..4];
  }

  lemma HeaderMagic(h: Header, hdr: seq<byte>, stream: seq<byte>, pos: nat)
    requires Packs(h, hdr) && At(stream, pos, hdr[..4])
    ensures pos + 4 <= |stream| && LE(stream[pos..pos + 4]) == MAGIC_COMPRESSED_V2
  {
    FixedMagic(h, |hdr| - V2_HEADER_MIN_SIZE, hdr);
    Word32At(stream, pos, MAGIC_COMPRESSED_V2);
  }

  /** The decoder's reading of the header at stream[pos..]. */
  ghost predicate HeaderReads(stream: seq<byte>, pos: nat, v2: Option<V2>) {
    && pos + 4 <= |stream| && LE(stream[pos..pos + 4]) == MAGIC_COMPRESSED_V2
    && forall p: nat :: p == pos ==> ReadV2Header(stream[p..]) == v2
  }

  lemma PackedHeaderReads(src: seq<byte>, start: nat, b: Block, stream: seq<byte>, pos: nat)
    requires b.Packed? && Encodes(src, start, b) && At(stream, pos, b.hdr)
    ensures |b.hdr| >= V2_HEADER_MIN_SIZE
    ensures HeaderReads(stream, pos, if RecordsFit(b) then Some(V2(b.h, |b.hdr|)) else None)
  {
    AcceptableWhenFit(src, start, b);
    HeaderAt(b.h, b.hdr, stream, pos);
  }

  /** A V2 block whose header reads as v2 and whose step after the header is r. */
  lemma HeaderSelects(stream: seq<byte>, pos: nat, out: seq<byte>, t: Tables, maxOut: nat, v2: Option<V2>, r: Step)
    requires HeaderReads(stream, pos, v2) && AfterHeaderIs(v2, stream, pos, out, t, maxOut, r)
    ensures DecodeStep(stream, pos, out, t, maxOut) == r
  {
    V2StepIs(stream, pos, out, t, maxOut, v2, r);
    KindOfMagic();
    StepByKind(stream, pos, out, t, maxOut, CompressedV2, r);
  }

  lemma PackedBytes(src: seq<byte>, start: nat, b: Block)
    requires b.Packed? && start <= b.end <= |src|
    ensures BlockBytes(src, start, b) == b.hdr + (b.lit + b.lmd)
    ensures |BlockBytes(src, start, b)| == |b.hdr| + |b.lit| + |b.lmd|
  {
  }

  /** What a packed block's header and payload are to the decoder. */
  lemma PackedHeader(src: seq<byte>, start: nat, b: Block, stream: seq<byte>, pos: nat)
    requires b.Packed? && Encodes(src, start, b) && RecordsFit(b) && At(stream, pos, b.hdr + (b.lit + b.lmd))
    ensures 7 <= |b.hdr| && HeaderReads(stream, pos, Some(V2(b.h, |b.hdr|)))
  {
    AtParts(stream, pos, b.hdr, b.lit + b.lmd);
    PackedHeaderReads(src, start, b, stream, pos);
  }

  lemma PackedPayload(src: seq<byte>, start: nat, b: Block, stream: seq<byte>, pos: nat, t: Tables)
    returns (at: nat, end: nat)
    requires b.Packed? && Encodes(src, start, b) && 7 <= |b.hdr| && TablesOk(t)
    requires At(stream, pos, b.hdr + (b.lit + b.lmd))
    ensures at == pos + |b.hdr| && end == at + |b.lit| + |b.lmd| && b.h.nRawBytes == b.end - start
    ensures Turns(b.h, stream, at, end, src[..start], t, src[..b.end])
  {
    AtParts(stream, pos, b.hdr, b.lit + b.lmd);
    at := pos + |b.hdr|;
    end := at + |b.lit| + |b.lmd|;
    PayloadTurns(src, start, b, stream, at, t);
  }

  lemma PackedSteps(src: seq<byte>, start: nat, b: Block, stream: seq<byte>, pos: nat, t: Tables, maxOut: nat)
    requires b.Packed? && Encodes(src, start, b) && RecordsFit(b) && b.end <= maxOut && TablesOk(t)
    requires At(stream, pos, b.hdr + (b.lit + b.lmd))
    ensures HeaderOk(b.h) && FreqsFit(b.h)
    ensures StepsTo(stream, pos, src[..start], t, maxOut,
                    pos + |b.hdr| + |b.lit| + |b.lmd|, src[..b.end], BuildTables(b.h, t))
  {
    PackedHeader(src, start, b, stream, pos);
    var at, end := PackedPayload(src, start, b, stream, pos, t);
    AcceptedStep(b.h, |b.hdr|, stream, pos, at, end, src[..start], t, maxOut, src[..b.end]);
  }

  /** A packed block of at most 10000 records is decoded if its end lies within the ceiling. */
  lemma PackedDecodes(src: seq<byte>, start: nat, b: Block, stream: seq<byte>, pos: nat, t: Tables, maxOut: nat)
    requires b.Packed? && Encodes(src, start, b) && RecordsFit(b) && b.end <= maxOut && TablesOk(t)
    requires At(stream, pos, BlockBytes(src, start, b))
    ensures HeaderOk(b.h) && FreqsFit(b.h)
    ensures StepsTo(stream, pos, src[..start], t, maxOut,
                    pos + |BlockBytes(src, start, b)|, src[..b.end], BuildTables(b.h, t))
  {
    PackedBytes(src, start, b);
    PackedSteps(src, start, b, stream, pos, t, maxOut);
  }

  lemma PackedTooLarge(src: seq<byte>, start: nat, b: Block, stream: seq<byte>, pos: nat, t: Tables, maxOut: nat)
    requires b.Packed? && Encodes(src, start, b) && RecordsFit(b) && maxOut < b.end && TablesOk(t)
    requires At(stream, pos, BlockBytes(src, start, b))
    ensures DecodesTo(stream, pos, src[..start], t, maxOut, TooLarge)
  {
    PackedBytes(src, start, b);
    PackedHeader(src, start, b, stream, pos);
    var at, end := PackedPayload(src, start, b, stream, pos, t);
    LargeBlock(b.h, |b.hdr|, stream, pos, at, end, src[..start], t, maxOut, src[..b.end]);
  }

  /** One of more than 10000 records is refused. */
  lemma PackedRefused(src: seq<byte>, start: nat, b: Block, stream: seq<byte>, pos: nat, t: Tables, maxOut: nat)
    requires b.Packed? && Encodes(src, start, b) && !RecordsFit(b) && TablesOk(t)
    requires At(stream, pos, BlockBytes(src, start, b))
    ensures DecodesTo(stream, pos, src[..start], t, maxOut, Invalid)
  {
    AtParts(stream, pos, b.hdr, b.lit + b.lmd);
    PackedHeaderReads(src, start, b, stream, pos);
    RefusedHeader(stream, pos, src[..start], t, maxOut);
  }

  lemma AcceptedStep(h: Header, size: nat, stream: seq<byte>, pos: nat, at: nat, end: nat, out: seq<byte>, t: Tables,
                     maxOut: nat, r: seq<byte>)
    requires HeaderReads(stream, pos, Some(V2(h, size))) && 0 < size && at == pos + size
    requires Turns(h, stream, at, end, out, t, r) && |out| + h.nRawBytes <= maxOut
    ensures StepsTo(stream, pos, out, t, maxOut, end, r, BuildTables(h, t))
  {
    DecodedStep(h, stream, at, end, out, t, maxOut, r);
    var next := Next(end, r, BuildTables(h, t));
    HeaderThenBlock(h, size, stream, pos, out, t, maxOut, next);
    HeaderSelects(stream, pos, out, t, maxOut, Some(V2(h, size)), next);
    StepsWhenNext(stream, pos, out, t, maxOut, next);
  }

  lemma LargeBlock(h: Header, size: nat, stream: seq<byte>, pos: nat, at: nat, end: nat, out: seq<byte>, t: Tables,
                   maxOut: nat, r: seq<byte>)
    requires HeaderReads(stream, pos, Some(V2(h, size))) && 0 < size && at == pos + size
    requires Turns(h, stream, at, end, out, t, r) && |out| + h.nRawBytes > maxOut
    ensures DecodesTo(stream, pos, out, t, maxOut, TooLarge)
  {
    LargeStep(h, stream, at, end, out, t, maxOut, r);
    HeaderThenBlock(h, size, stream, pos, out, t, maxOut, Stop(TooLarge));
    HeaderSelects(stream, pos, out, t, maxOut, Some(V2(h, size)), Stop(TooLarge));
    StepStops(stream, pos, out, t, maxOut, TooLarge);
  }

  lemma RefusedHeader(stream: seq<byte>, pos: nat, out: seq<byte>, t: Tables, maxOut: nat)
    requires HeaderReads(stream, pos, None) && TablesOk(t)
    ensures DecodesTo(stream, pos, out, t, maxOut, Invalid)
  {
    assert AfterHeaderIs(None, stream, pos, out, t, maxOut, Stop(Invalid));
    HeaderSelects(stream, pos, out, t, maxOut, None, Stop(Invalid));
    StepStops(stream, pos, out, t, maxOut, Invalid);
  }

  lemma WithinLiteralLimit(src: seq<byte>, start: nat, b: Block)
    requires b.Packed? && Encodes(src, start, b)
    ensures b.h.nLiterals <= LITERALS_PER_BLOCK
  {
    assert IsPacked(src, start, b);
  }

  ghost predicate V1HeaderReads(stream: seq<byte>, pos: nat, h: Header) {
    && pos + V1_HEADER_SIZE <= |stream| && LE(stream[pos..pos + 4]) == MAGIC_COMPRESSED_V1
    && forall p: nat :: p == pos ==> ReadV1Header(stream[p..]) == h
  }

  /** A V1 header in a stream: its magic, and what the decoder reads. */
  lemma V1HeaderAt(h: Header, nPayload: nat, stream: seq<byte>, pos: nat)
    requires V1Fits(h) && At(stream, pos, V1Bytes(h, nPayload))
    ensures V1HeaderReads(stream, pos, h)
  {
    var b := V1Bytes(h, nPayload);
    HeaderInPlace(b, stream, pos);
    assert stream[pos..] == b + stream[pos..][V1_HEADER_SIZE..];
    V1RoundTrip(h, nPayload, stream[pos..][V1_HEADER_SIZE..]);
    V1Magic(h, nPayload);
    Word32At(stream, pos, MAGIC_COMPRESSED_V1);
  }

  /** The step of a V1 block within the two limits whose step after the header goes on. */
  lemma V1Selects(h: Header, stream: seq<byte>, pos: nat, out: seq<byte>, t: Tables, maxOut: nat, next: Step)
    requires V1HeaderReads(stream, pos, h) && next.Next?
    requires h.nLiterals <= LITERALS_PER_BLOCK && h.nMatches <= MATCHES_PER_BLOCK
    requires CompressedIs(h, stream, pos + V1_HEADER_SIZE, out, t, maxOut, next)
    ensures StepsTo(stream, pos, out, t, maxOut, next.pos, next.out, next.t)
  {
    assert V1Step(stream, pos, out, t, maxOut) == next;
    StepByKind(stream, pos, out, t, maxOut, CompressedV1, next);
    StepsWhenNext(stream, pos, out, t, maxOut, next);
  }

  /** The block encodeBlock returns, under its V1 header, decodes as it stands. */
  lemma V1BlockDecodes(src: seq<byte>, start: nat, b: Block, stream: seq<byte>, pos: nat, t: Tables, maxOut: nat)
    requires b.Packed? && Encodes(src, start, b) && RecordsFit(b) && b.end <= maxOut && TablesOk(t) && V1Fits(b.h)
    requires At(stream, pos, V1Bytes(b.h, |b.lit| + |b.lmd|) + (b.lit + b.lmd))
    ensures HeaderOk(b.h) && FreqsFit(b.h)
    ensures StepsTo(stream, pos, src[..start], t, maxOut,
                    pos + V1_HEADER_SIZE + |b.lit| + |b.lmd|, src[..b.end], BuildTables(b.h, t))
  {
    var at := pos + V1_HEADER_SIZE;
    var end := at + |b.lit| + |b.lmd|;
    AtParts(stream, pos, V1Bytes(b.h, |b.lit| + |b.lmd|), b.lit + b.lmd);
    V1HeaderAt(b.h, |b.lit| + |b.lmd|, stream, pos);
    PayloadTurns(src, start, b, stream, at, t);
    DecodedStep(b.h, stream, at, end, src[..start], t, maxOut, src[..b.end]);
    WithinLiteralLimit(src, start, b);
    V1Selects(b.h, stream, pos, src[..start], t, maxOut, Next(end, src[..b.end], BuildTables(b.h, t)));
  }

  // ---------------------------------------------------------------- any valid parse

  lemma AllFreqsInRange(h: Header)
    requires FreqsInRange(h)
    ensures forall v <- AllFreqs(h) :: v <= MAX_FREQ
  {
  }

  /** A block within the decoder's two limits also fits the packed header. */
  lemma LimitsFit(src: seq<byte>, start: nat, ms: seq<Match>, end: nat, h: Header, lit: seq<byte>, lmd: seq<byte>,
                  pad: seq<byte>)
    requires BlockFor(src, start, ms, end, h, lit, lmd, pad) && end - start < 0x1_0000_0000
    requires |Uncovered(src, start, ms, end)| <= LITERALS_PER_BLOCK
    requires |BlockRecords(start, ms, end)| <= MATCHES_PER_BLOCK
    ensures FieldsFit(h) && WithinLimits(h)
  {
    var lits := Uncovered(src, start, ms, end);
    HeaderFieldsFit(h, lit, lmd, lits + pad, BlockRecords(start, ms, end));
    PaddingStaysWithin(|lits|, |pad|, h.nLiterals);
    SizesFit(h);
  }

  /** Padding to a multiple of four does not pass a limit that is one. */
  lemma PaddingStaysWithin(u: nat, p: nat, n: nat)
    requires u <= LITERALS_PER_BLOCK && p <= 3 && n == u + p && n % 4 == 0
    ensures n <= LITERALS_PER_BLOCK
  {
  }

  lemma SizesFit(h: Header)
    requires WithinLimits(h) && -7 <= h.literalBits <= 0 && -7 <= h.lmdBits <= 0 && h.nRawBytes < 0x1_0000_0000
    requires 8 * h.nLiteralPayloadBytes <= 10 * h.nLiterals + 7 && 8 * h.nLMDPayloadBytes <= 54 * h.nMatches + 71
    ensures FieldsFit(h)
  {
  }

  ghost predicate WithinLimits(h: Header) {
    HeaderOk(h) && FreqsFit(h)
    && h.nLiterals <= LITERALS_PER_BLOCK && h.nLiterals % 4 == 0 && h.nMatches <= MATCHES_PER_BLOCK
  }

  lemma LimitsAcceptable(h: Header)
    requires WithinLimits(h)
    ensures Acceptable(h)
  {
  }

  /** The block's header reads as h, and its payload takes any decoder from one stream to the other. */
  ghost predicate DecodesBlock(block: seq<byte>, h: Header, size: nat, from: seq<byte>, to: seq<byte>) {
    && HeaderOk(h) && FreqsFit(h) && size <= |block|
    && (forall b: seq<byte> :: b == block ==> ReadV2Header(b) == Some(V2(h, size)))
    && forall was: Tables :: TablesOk(was) ==>
         TablesOk(BuildTables(h, was)) && DecodeBlock(h, block, size, from, BuildTables(h, was)) == Some(to)
  }

  lemma PackedBlockDecodes(src: seq<byte>, start: nat, ms: seq<Match>, end: nat, h: Header, lit: seq<byte>,
                           lmd: seq<byte>, pad: seq<byte>, hdr: seq<byte>, block: seq<byte>)
    requires BlockFor(src, start, ms, end, h, lit, lmd, pad) && start <= end <= |src|
    requires HeaderOk(h) && FreqsFit(h) && |hdr| >= V2_HEADER_MIN_SIZE && block == hdr + (lit + lmd)
    requires ReadV2Header(block) == Some(V2(h, |hdr|))
    ensures DecodesBlock(block, h, |hdr|, src[..start], src[..end])
  {
    forall was: Tables | TablesOk(was)
      ensures TablesOk(BuildTables(h, was))
      ensures DecodeBlock(h, block, |hdr|, src[..start], BuildTables(h, was)) == Some(src[..end])
    {
      PartsAt(block, hdr, lit, lmd);
      EncodedBlockDecodes(src, start, ms, end, h, lit, lmd, pad, was, block, |hdr|);
    }
  }

  lemma PartsAt(block: seq<byte>, hdr: seq<byte>, lit: seq<byte>, lmd: seq<byte>)
    requires block == hdr + (lit + lmd)
    ensures PayloadAt(block, |hdr|, lit, lmd)
  {
  }

  lemma FitsV1(h: Header)
    requires FieldsFit(h) && forall v <- AllFreqs(h) :: v <= MAX_FREQ
    ensures V1Fits(h)
  {
    Pow2Values();
    FrequenciesBelow16(h.lFreq, 20, AllFreqs(h));
    FrequenciesBelow16(h.mFreq, 20, AllFreqs(h));
    FrequenciesBelow16(h.dFreq, 64, AllFreqs(h));
    FrequenciesBelow16(h.literalFreq, 256, AllFreqs(h));
  }

  lemma FrequenciesBelow16(w: seq<nat>, n: nat, all: seq<nat>)
    requires |w| == n && (forall v <- w :: v in all) && forall v <- all :: v <= MAX_FREQ
    ensures AllBelow16(w, n)
  {
    forall i | 0 <= i < n
      ensures w[i] < 0x1_0000
    {
      assert w[i] in all;
    }
  }

  /** The block as encodeBlock returns it, under a V1 header, read back and given a packed header. */
  method Repack(h: Header, payload: seq<byte>) returns (block: seq<byte>, ghost hdr: seq<byte>)
    requires FieldsFit(h) && forall v <- AllFreqs(h) :: v <= MAX_FREQ
    ensures Packs(h, hdr) && block == hdr + payload
  {
    FitsV1(h);
    var header := WriteV1Header(h, |payload|);
    var v1 := header[..] + payload;
    V1RoundTrip(h, |payload|, payload);
    block, hdr := MakeV2Block(ReadV1Header(v1), v1[V1_HEADER_SIZE..]);
  }

  /** encodeBlock and makeV2Block. */
  method MakeBlock(src: seq<byte>, srcStart: nat, srcEnd: nat, ms: seq<Match>)
    returns (block: seq<byte>, ghost h: Header, ghost size: nat)
    requires ValidMatches(src, srcStart, ms, srcEnd) && srcStart <= srcEnd <= |src| && srcEnd - srcStart < 0x7fff_fff0
    requires |Uncovered(src, srcStart, ms, srcEnd)| <= LITERALS_PER_BLOCK
    requires |BlockRecords(srcStart, ms, srcEnd)| <= MATCHES_PER_BLOCK
    ensures DecodesBlock(block, h, size, src[..srcStart], src[..srcEnd])
  {
    var h', lit, lmd;
    ghost var pad, hdr;
    h', lit, lmd, pad := EncodeBlock(src, srcStart, srcEnd, ms);
    h := h';
    LimitsFit(src, srcStart, ms, srcEnd, h, lit, lmd, pad);
    AllFreqsInRange(h);
    block, hdr := Repack(h', lit + lmd);
    LimitsAcceptable(h);
    HeaderRoundTrip(h, hdr, block);
    size := |hdr|;
    PackedBlockDecodes(src, srcStart, ms, srcEnd, h, lit, lmd, pad, hdr, block);
  }

  /**
   * The block round trip as the code runs it: for every source, range and valid match list within the two limits,
   * encodeBlock, makeV2Block, decodeV2Header and decodeCompressedBlock turn src[..srcStart] into src[..srcEnd],
   * whatever tables an earlier block left in the scratch space.
   */
  method EncodeThenDecodeBlock(src: seq<byte>, srcStart: nat, srcEnd: nat, ms: seq<Match>, prior: array<byte>,
                               used: nat, sc: BlockDecode.Scratch)
    returns (block: seq<byte>, ok: bool, out: array<byte>, di: nat, ghost h: Header, ghost size: nat)
    requires ValidMatches(src, srcStart, ms, srcEnd) && srcStart <= srcEnd <= |src| && srcEnd - srcStart < 0x7fff_fff0
    requires |Uncovered(src, srcStart, ms, srcEnd)| <= LITERALS_PER_BLOCK
    requires |BlockRecords(srcStart, ms, srcEnd)| <= MATCHES_PER_BLOCK
    requires used <= prior.Length && prior[..used] == src[..srcStart] && sc.Valid()
    modifies sc.lit, sc.l, sc.m, sc.d
    ensures DecodesBlock(block, h, size, src[..srcStart], src[..srcEnd])
    ensures ok && di <= out.Length && out[..di] == src[..srcEnd]
  {
    block, h, size := MakeBlock(src, srcStart, srcEnd, ms);
    ok, out, di := DecodeMadeBlock(block, h, size, src[..srcEnd], prior, used, sc);
  }

  /** decodeV2Header and decodeCompressedBlock. */
  method DecodeMadeBlock(block: seq<byte>, ghost h': Header, ghost size': nat, ghost to: seq<byte>,
                         prior: array<byte>, used: nat, sc: BlockDecode.Scratch)
    returns (ok: bool, out: array<byte>, di: nat)
    requires used <= prior.Length && sc.Valid() && DecodesBlock(block, h', size', prior[..used], to)
    modifies sc.lit, sc.l, sc.m, sc.d
    ensures ok && di <= out.Length && out[..di] == to
  {
    var h, size := ReadMadeHeader(block, h', size', prior[..used], to);
    ghost var t := BuildTables(h, sc.Tables());
    ok, out, di := BlockDecode.DecodeCompressedBlock(h, block, size, prior, used, sc);
  }

  method ReadMadeHeader(block: seq<byte>, ghost h': Header, ghost size': nat, ghost from: seq<byte>,
                        ghost to: seq<byte>)
    returns (h: Header, size: nat)
    requires DecodesBlock(block, h', size', from, to)
    ensures h == h' && size == size'
  {
    var ok;
    ok, h, size := DecodeV2Header(block);
    assert ReadV2Header(block) == Some(V2(h', size'));
  }

  // ---------------------------------------------------------------- whole streams

  function EndOfStreamBlock(): (b: seq<byte>)
    ensures |b| == 4
  {
    PutLE(WORD_32, MAGIC_END_OF_STREAM)
  }

  /** Bytes that begin with the end marker; what follows it does not matter. */
  predicate EndsStream(tail: seq<byte>) {
    |tail| >= 4 && LE(tail[..4]) == MAGIC_END_OF_STREAM
  }

  lemma EndMarkerEnds()
    ensures EndsStream(EndOfStreamBlock())
  {
    Pow2Big();
    PutLERoundTrip(WORD_32, MAGIC_END_OF_STREAM);
    assert EndOfStreamBlock()[..4] == EndOfStreamBlock();
  }

  lemma EndDecodes(stream: seq<byte>, pos: nat, tail: seq<byte>, out: seq<byte>, t: Tables, maxOut: nat)
    requires At(stream, pos, tail) && EndsStream(tail) && TablesOk(t)
    ensures DecodesTo(stream, pos, out, t, maxOut, Decoded(out))
  {
    assert StandsAt(stream, pos, tail);
    assert stream[pos..pos + 4] == tail[..4];
    KindOfMagic();
    StepByKind(stream, pos, out, t, maxOut, EndOfStream, Stop(Decoded(out)));
  }

  lemma StepThenRest(stream: seq<byte>, pos: nat, out: seq<byte>, t: Tables, maxOut: nat,
                     next: nat, out': seq<byte>, t': Tables, r: Outcome)
    requires StepsTo(stream, pos, out, t, maxOut, next, out', t')
    requires DecodesTo(stream, next, out', t', maxOut, r)
    ensures DecodesTo(stream, pos, out, t, maxOut, r)
  {
    assert DecodeStep(stream, pos, out, t, maxOut) == Next(next, out', t');
    assert DecodeStream(stream, next, out', t', maxOut) == r;
  }

  lemma StreamBytesStep(src: seq<byte>, start: nat, bs: seq<Block>, end: nat, first: seq<byte>, later: seq<byte>)
    requires Partition(src, start, bs, end) && bs != []
    requires first == BlockBytes(src, start, bs[0]) && later == StreamBytes(src, bs[0].end, bs[1..], end)
    ensures StreamBytes(src, start, bs, end) == first + later
  {
  }

  lemma AtFirst(stream: seq<byte>, pos: nat, all: seq<byte>, a: seq<byte>, b: seq<byte>, c: seq<byte>)
    requires all == a + b && At(stream, pos, all + c)
    ensures At(stream, pos, a) && At(stream, pos + |a|, b + c)
  {
    SeqAssoc(a, b, c);
    AtParts(stream, pos, a, b + c);
  }

  lemma FirstBlockAt(src: seq<byte>, start: nat, bs: seq<Block>, stream: seq<byte>, pos: nat, tail: seq<byte>)
    requires Partition(src, start, bs, |src|) && bs != []
    requires At(stream, pos, StreamBytes(src, start, bs, |src|) + tail)
    ensures At(stream, pos, BlockBytes(src, start, bs[0]))
    ensures At(stream, pos + |BlockBytes(src, start, bs[0])|,
               StreamBytes(src, bs[0].end, bs[1..], |src|) + tail)
  {
    var first, later := BlockBytes(src, start, bs[0]), StreamBytes(src, bs[0].end, bs[1..], |src|);
    StreamBytesStep(src, start, bs, |src|, first, later);
    AtFirst(stream, pos, StreamBytes(src, start, bs, |src|), first, later, tail);
  }

  lemma FirstBlockDecodes(src: seq<byte>, start: nat, bs: seq<Block>, stream: seq<byte>, pos: nat, tail: seq<byte>,
                          t: Tables, maxOut: nat)
    returns (next: nat, t': Tables)
    requires Partition(src, start, bs, |src|) && |src| < 0x1_0000_0000 && TablesOk(t)
    requires bs != [] && RecordsFit(bs[0]) && bs[0].end <= maxOut
    requires At(stream, pos, StreamBytes(src, start, bs, |src|) + tail)
    ensures TablesOk(t') && Partition(src, bs[0].end, bs[1..], |src|) && bs[0].end <= |src|
    ensures StepsTo(stream, pos, src[..start], t, maxOut, next, src[..bs[0].end], t')
    ensures At(stream, next, StreamBytes(src, bs[0].end, bs[1..], |src|) + tail)
  {
    FirstBlockAt(src, start, bs, stream, pos, tail);
    next := pos + |BlockBytes(src, start, bs[0])|;
    t' := BlockStepOn(src, start, bs[0], stream, pos, t, maxOut);
  }

  /** A block the decoder does not get past. */
  lemma FirstBlockStops(src: seq<byte>, start: nat, b: Block, stream: seq<byte>, pos: nat, t: Tables, maxOut: nat)
    requires Encodes(src, start, b) && |src| < 0x1_0000_0000 && TablesOk(t)
    requires At(stream, pos, BlockBytes(src, start, b)) && (!RecordsFit(b) || maxOut < b.end)
    ensures DecodesTo(stream, pos, src[..start], t, maxOut, if RecordsFit(b) then TooLarge else Invalid)
  {
    if !RecordsFit(b) {
      PackedRefused(src, start, b, stream, pos, t, maxOut);
    } else if b.Stored? {
      StoredTooLarge(src, start, b.end, stream, pos, t, maxOut);
    } else {
      PackedTooLarge(src, start, b, stream, pos, t, maxOut);
    }
  }

  /**
   * The stream round trip: blocks that partition the source, closed by the end marker and whatever may follow
   * it, decode to the source unless a block has more than 10000 records or passes the ceiling.
   */
  lemma {:induction false} StreamDecodes(src: seq<byte>, start: nat, bs: seq<Block>, stream: seq<byte>, pos: nat,
                                         tail: seq<byte>, t: Tables, maxOut: nat)
    requires Partition(src, start, bs, |src|) && |src| < 0x1_0000_0000 && TablesOk(t)
    requires At(stream, pos, StreamBytes(src, start, bs, |src|) + tail) && EndsStream(tail)
    ensures start <= |src|
    ensures DecodesTo(stream, pos, src[..start], t, maxOut, OutcomeOf(src, bs, maxOut))
    decreases |bs|
  {
    if bs == [] {
      assert [] + tail == tail && src[..start] == src;
      EndDecodes(stream, pos, tail, src, t, maxOut);
    } else if RecordsFit(bs[0]) && bs[0].end <= maxOut {
      var next, t' := FirstBlockDecodes(src, start, bs, stream, pos, tail, t, maxOut);
      StreamDecodes(src, bs[0].end, bs[1..], stream, next, tail, t', maxOut);
      StepThenRest(stream, pos, src[..start], t, maxOut, next, src[..bs[0].end], t', OutcomeOf(src, bs, maxOut));
    } else {
      FirstBlockAt(src, start, bs, stream, pos, tail);
      FirstBlockStops(src, start, bs[0], stream, pos, t, maxOut);
    }
  }

  /** A block the decoder accepts takes it from src[..start] to src[..b.end]. */
  lemma BlockStepOn(src: seq<byte>, start: nat, b: Block, stream: seq<byte>, pos: nat, t: Tables, maxOut: nat)
    returns (t': Tables)
    requires Encodes(src, start, b) && RecordsFit(b) && b.end <= maxOut && |src| < 0x1_0000_0000 && TablesOk(t)
    requires At(stream, pos, BlockBytes(src, start, b))
    ensures TablesOk(t')
    ensures StepsTo(stream, pos, src[..start], t, maxOut, pos + |BlockBytes(src, start, b)|, src[..b.end], t')
  {
    if b.Stored? {
      StoredDecodes(src, start, b.end, stream, pos, t, maxOut);
      t' := t;
    } else {
      PackedDecodes(src, start, b, stream, pos, t, maxOut);
      t' := BuildTables(b.h, t);
    }
  }

  /** Two outcomes of one stream are the same. */
  lemma OneOutcome(stream: seq<byte>, pos: nat, out: seq<byte>, t: Tables, maxOut: nat, r1: Outcome, r2: Outcome)
    requires DecodesTo(stream, pos, out, t, maxOut, r1) && DecodesTo(stream, pos, out, t, maxOut, r2)
    ensures r1 == r2
  {
    assert DecodeStream(stream, pos, out, t, maxOut) == r1;
  }

  // ---------------------------------------------------------------- the LZFSE encoder

  /** Literals after the last match of a packed block. */
  function TrailingRun(b: Block): int
    requires b.Packed? && b.ms != []
  {
    b.end - (b.ms[|b.ms| - 1].pos + b.ms[|b.ms| - 1].M)
  }

  /** A packed block's record count: at most 9998 plus those of its trailing run. */
  predicate RecordsBounded(b: Block) {
    b.Packed? ==>
      && b.ms != [] && b.h.nMatches <= Splitter.RECORD_BUDGET + Splitter.TrailingRecords(TrailingRun(b))
  }

  lemma {:induction false} RebasedLast(all: seq<Match>, start: nat, first: nat, k: nat, last: nat)
    requires first <= k < last <= |all|
    ensures IsLast(all, last, Splitter.Rebased(all, start, first, k, last))
    decreases last - k
  {
    if k + 1 == last {
    } else {
      RebasedLast(all, start, first, k + 1, last);
      FirstAdded(all, last, all[k].(L := all[k].pos - Splitter.EndAt(all, start, first, k)),
                 Splitter.Rebased(all, start, first, k + 1, last));
    }
  }

  /** ms ends with match last - 1, but for its L. */
  predicate IsLast(all: seq<Match>, last: nat, ms: seq<Match>)
    requires 0 < last <= |all|
  {
    ms != [] && ms[|ms| - 1].pos == all[last - 1].pos && ms[|ms| - 1].M == all[last - 1].M
  }

  lemma FirstAdded(all: seq<Match>, last: nat, m: Match, ms: seq<Match>)
    requires 0 < last <= |all| && IsLast(all, last, ms)
    ensures IsLast(all, last, [m] + ms)
  {
  }

  /** Sizes of the block the splitter chose, as the encoder sees them. */
  lemma ChosenBlock(src: seq<byte>, all: seq<Match>, start: nat, first: nat, last: nat, end: nat)
    returns (ms: seq<Match>)
    requires Splitter.BlockFits(src, all, start, first, last, end) && first < last
    ensures ms == Splitter.Rebased(all, start, first, first, last)
    ensures ValidMatches(src, start, ms, end) && start < end <= |src| && end - start <= Splitter.MAX_BLOCK_RAW_BYTES
    ensures |Uncovered(src, start, ms, end)| <= Splitter.MAX_BLOCK_LITERALS
    ensures |BlockRecords(start, ms, end)|
            == Splitter.RecordsBefore(all, start, first, last)
               + Splitter.TrailingRecords(end - Splitter.EndAt(all, start, first, last))
    ensures |BlockRecords(start, ms, end)| <= Splitter.RECORD_BUDGET + 127
  {
    ms := Splitter.Rebased(all, start, first, first, last);
    Splitter.BlockCounts(src, all, start, first, last, end);
    Splitter.RecordBound(src, all, start, first, last, end);
    var t := end - Splitter.EndAt(all, start, first, last);
    Splitter.RunsWithin(src, all, start, first, last, end, first);
    Splitter.SplitsMono(t, Splitter.MAX_BLOCK_LITERALS);
    Splitter.SplitsIsQuotient(Splitter.MAX_BLOCK_LITERALS);
  }

  lemma PackedFields(src: seq<byte>, start: nat, ms: seq<Match>, end: nat, h: Header, lit: seq<byte>, lmd: seq<byte>,
                     pad: seq<byte>)
    requires BlockFor(src, start, ms, end, h, lit, lmd, pad) && end - start <= Splitter.MAX_BLOCK_RAW_BYTES
    requires |Uncovered(src, start, ms, end)| <= Splitter.MAX_BLOCK_LITERALS
    requires |BlockRecords(start, ms, end)| <= Splitter.RECORD_BUDGET + 127
    ensures FieldsFit(h) && h.nLiterals <= LITERALS_PER_BLOCK && h.nMatches == |BlockRecords(start, ms, end)|
  {
    var lits, recs := Uncovered(src, start, ms, end) + pad, BlockRecords(start, ms, end);
    HeaderFieldsFit(h, lit, lmd, lits, recs);
  }

  /** A packed block for a valid parse of src[start..end]. */
  method EmitPacked(src: seq<byte>, start: nat, end: nat, ms: seq<Match>) returns (bytes: seq<byte>, ghost b: Block)
    requires ValidMatches(src, start, ms, end) && start < end <= |src|
    requires end - start <= Splitter.MAX_BLOCK_RAW_BYTES
    requires |Uncovered(src, start, ms, end)| <= Splitter.MAX_BLOCK_LITERALS
    requires |BlockRecords(start, ms, end)| <= Splitter.RECORD_BUDGET + 127
    ensures b.Packed? && b.end == end && b.ms == ms && b.h.nMatches == |BlockRecords(start, ms, end)|
    ensures Encodes(src, start, b) && bytes == BlockBytes(src, start, b)
  {
    var h, lit, lmd;
    ghost var pad, hdr;
    h, lit, lmd, pad := EncodeBlock(src, start, end, ms);
    PackedFields(src, start, ms, end, h, lit, lmd, pad);
    AllFreqsInRange(h);
    bytes, hdr := Repack(h, lit + lmd);
    b := Packed(end, ms, h, hdr, lit, lmd, pad);
  }

  /** b is the block of a span: stored if it has no match, and packed with the span's matches and records otherwise. */
  ghost predicate Follows(all: seq<Match>, b: Block, p: Splitter.Span) {
    && b.end == p.end && p.first <= p.last <= |all| && (b.Stored? <==> p.first == p.last)
    && (b.Packed? ==>
          && b.ms == Splitter.Rebased(all, p.start, p.first, p.first, p.last)
          && b.h.nMatches == Splitter.SpanRecords(all, p))
  }

  ghost predicate AllFollow(all: seq<Match>, bs: seq<Block>, spans: seq<Splitter.Span>) {
    |bs| == |spans| && forall i :: 0 <= i < |bs| ==> Follows(all, bs[i], spans[i])
  }

  /** One block of the output: raw bytes when no match is in it, a packed block otherwise. */
  method EmitBlock(src: seq<byte>, all: seq<Match>, start: nat, first: nat, last: nat, end: nat)
    returns (bytes: seq<byte>, ghost b: Block)
    requires Splitter.BlockFits(src, all, start, first, last, end)
    ensures Encodes(src, start, b) && bytes == BlockBytes(src, start, b)
    ensures Follows(all, b, Splitter.Span(start, first, last, end)) && RecordsBounded(b)
  {
    if first == last {
      b := Stored(end);
      bytes := StoredBlock(src[start..end]);
      return;
    }
    ghost var ms := ChosenBlock(src, all, start, first, last, end);
    var rebased := Splitter.RebaseMatches(all, start, first, last);
    bytes, b := EmitPacked(src, start, end, rebased);
    PackedFollows(src, all, Splitter.Span(start, first, last, end), b);
  }

  lemma PackedFollows(src: seq<byte>, all: seq<Match>, p: Splitter.Span, b: Block)
    requires Splitter.BlockFits(src, all, p.start, p.first, p.last, p.end) && p.first < p.last
    requires b.Packed? && b.end == p.end && b.ms == Splitter.Rebased(all, p.start, p.first, p.first, p.last)
    requires b.h.nMatches == |BlockRecords(p.start, b.ms, p.end)|
    ensures Follows(all, b, p) && RecordsBounded(b)
  {
    Splitter.RecordBound(src, all, p.start, p.first, p.last, p.end);
    RebasedLast(all, p.start, p.first, p.first, p.last);
  }

  /** The blocks partition src[..end] and out is their bytes. */
  ghost predicate Written(src: seq<byte>, bs: seq<Block>, end: nat, out: seq<byte>) {
    Partition(src, 0, bs, end) && forall x: seq<Block> :: x == bs ==> IsStream(src, x, end, out)
  }

  ghost predicate IsStream(src: seq<byte>, bs: seq<Block>, end: nat, out: seq<byte>) {
    Partition(src, 0, bs, end) && out == StreamBytes(src, 0, bs, end)
  }

  lemma WrittenGrows(src: seq<byte>, bs: seq<Block>, end: nat, out: seq<byte>, b: Block, bytes: seq<byte>)
    requires Written(src, bs, end, out) && Encodes(src, end, b) && bytes == BlockBytes(src, end, b)
    ensures Written(src, bs + [b], b.end, out + bytes)
  {
    assert IsStream(src, bs, end, out);
    PartitionGrows(src, 0, bs, end, b);
  }

  /** out is the blocks, which partition the source, and the end marker. */
  ghost predicate IsCompressed(src: seq<byte>, bs: seq<Block>, out: seq<byte>) {
    Partition(src, 0, bs, |src|) && out == StreamBytes(src, 0, bs, |src|) + EndOfStreamBlock()
  }

  lemma StreamCloses(src: seq<byte>, bs: seq<Block>, body: seq<byte>, out: seq<byte>)
    requires Written(src, bs, |src|, body) && out == body + EndOfStreamBlock()
    ensures IsCompressed(src, bs, out)
  {
    assert IsStream(src, bs, |src|, body);
  }

  /** out is the blocks of the splitter's first spans; start and first are where the next one begins. */
  ghost predicate Progress(src: seq<byte>, all: seq<Match>, start: nat, first: nat, out: seq<byte>, bs: seq<Block>,
                           done: seq<Splitter.Span>)
  {
    && start <= |src| && Splitter.Placed(src, all, 0, 0, |all|, |src|)
    && Splitter.Placed(src, all, start, first, |all|, |src|)
    && Written(src, bs, start, out) && AllFollow(all, bs, done) && (forall b <- bs :: RecordsBounded(b))
    && forall d: seq<Splitter.Span> :: d == done ==>
         Splitter.Spans(src, all, 0, 0) == d + Splitter.Spans(src, all, start, first)
  }

  lemma SpansStep(src: seq<byte>, all: seq<Match>, start: nat, first: nat, done: seq<Splitter.Span>)
    requires Splitter.Placed(src, all, 0, 0, |all|, |src|) && start < |src|
    requires Splitter.Placed(src, all, start, first, |all|, |src|)
    requires Splitter.Spans(src, all, 0, 0) == done + Splitter.Spans(src, all, start, first)
    ensures var p := Splitter.FirstSpan(src, all, start, first);
            && Splitter.Placed(src, all, p.end, p.last, |all|, |src|)
            && Splitter.Spans(src, all, 0, 0) == done + [p] + Splitter.Spans(src, all, p.end, p.last)
  {
    Splitter.NextCutKeeps(src, all, start, first);
    var p := Splitter.FirstSpan(src, all, start, first);
    SeqAssoc(done, [p], Splitter.Spans(src, all, p.end, p.last));
  }

  /** One round of the block loop. */
  method AddBlock(src: seq<byte>, all: seq<Match>, start0: nat, first0: nat, out0: seq<byte>, ghost bs0: seq<Block>,
                  ghost done0: seq<Splitter.Span>)
    returns (start: nat, first: nat, out: seq<byte>, ghost bs: seq<Block>, ghost done: seq<Splitter.Span>)
    requires Progress(src, all, start0, first0, out0, bs0, done0) && start0 < |src|
    ensures Progress(src, all, start, first, out, bs, done) && start0 < start
  {
    Splitter.NextCutKeeps(src, all, start0, first0);
    assert Splitter.Spans(src, all, 0, 0) == done0 + Splitter.Spans(src, all, start0, first0);
    SpansStep(src, all, start0, first0, done0);
    first, start := Splitter.NextBlock(src, all, start0, first0);
    var bytes;
    ghost var b;
    bytes, b := EmitBlock(src, all, start0, first0, first, start);
    WrittenGrows(src, bs0, start0, out0, b, bytes);
    out := out0 + bytes;
    bs, done := bs0 + [b], done0 + [Splitter.Span(start0, first0, first, start)];
  }

  lemma ProgressStarts(src: seq<byte>, all: seq<Match>)
    requires Splitter.Placed(src, all, 0, 0, |all|, |src|)
    ensures Progress(src, all, 0, 0, [], [], [])
  {
    var none: seq<Splitter.Span> := [];
    assert none + Splitter.Spans(src, all, 0, 0) == Splitter.Spans(src, all, 0, 0);
    assert StreamBytes(src, 0, [], 0) == [];
  }

  lemma ProgressEnds(src: seq<byte>, all: seq<Match>, first: nat, out: seq<byte>, bs: seq<Block>,
                     done: seq<Splitter.Span>)
    requires Progress(src, all, |src|, first, out, bs, done)
    ensures Splitter.Spans(src, all, 0, 0) == done
  {
    assert Splitter.Spans(src, all, 0, 0) == done + Splitter.Spans(src, all, |src|, first);
    assert Splitter.Spans(src, all, |src|, first) == [];
  }

  /** The block loop over a match list writes the blocks of the splitter's spans. */
  method CompressMatches(src: seq<byte>, all: seq<Match>) returns (out: seq<byte>, ghost bs: seq<Block>)
    requires Splitter.Placed(src, all, 0, 0, |all|, |src|)
    ensures IsCompressed(src, bs, out) && AllFollow(all, bs, Splitter.Spans(src, all, 0, 0))
    ensures forall b <- bs :: RecordsBounded(b)
  {
    out, bs := [], [];
    var start: nat, first: nat := 0, 0;
    ghost var done: seq<Splitter.Span> := [];
    ProgressStarts(src, all);
    while start < |src|
      invariant Progress(src, all, start, first, out, bs, done)
      decreases |src| - start
    {
      start, first, out, bs, done := AddBlock(src, all, start, first, out, bs, done);
    }
    ProgressEnds(src, all, first, out, bs, done);
    ghost var body := out;
    out := out + EndOfStreamBlock();
    StreamCloses(src, bs, body, out);
  }

  lemma ParsePlaced(src: seq<byte>)
    ensures Splitter.Placed(src, FindMatches.Parse(src), 0, 0, |FindMatches.Parse(src)|, |src|)
  {
    var all := FindMatches.Parse(src);
    FindMatches.ParseIsValid(src);
    assert all[0..] == all;
    Splitter.ValidIsPlaced(src, all, 0);
  }

  /** The blocks that Compress makes of a source: those of the splitter on the matches found in it. */
  ghost function SourceSpans(src: seq<byte>): seq<Splitter.Span> {
    ParsePlaced(src);
    Splitter.Spans(src, FindMatches.Parse(src), 0, 0)
  }

  /** out is an LZFSE stream of the source: its blocks are those of the source's spans. */
  ghost predicate IsLzfse(src: seq<byte>, bs: seq<Block>, out: seq<byte>) {
    && IsCompressed(src, bs, out) && AllFollow(FindMatches.Parse(src), bs, SourceSpans(src))
    && forall b <- bs :: RecordsBounded(b)
  }

  /** Compresses src to LZFSE blocks. */
  method CompressLZFSE(src: seq<byte>) returns (out: seq<byte>, ghost bs: seq<Block>)
    requires |src| < 0x8000_0000
    ensures IsLzfse(src, bs, out)
  {
    var all := FindMatches.FindMatches(src);
    ParsePlaced(src);
    out, bs := CompressMatches(src, all);
  }

  /** What an LZFSE stream of these spans decodes to: the records of a block are known from the matches. */
  function OutcomeOfSpans(src: seq<byte>, all: seq<Match>, spans: seq<Splitter.Span>, maxOut: nat): Outcome {
    if spans == [] then Decoded(src)
    else if !Splitter.SpanFits(all, spans[0]) then Invalid
    else if spans[0].end > maxOut then TooLarge
    else OutcomeOfSpans(src, all, spans[1..], maxOut)
  }

  lemma {:induction false} SpansDecide(src: seq<byte>, all: seq<Match>, bs: seq<Block>, spans: seq<Splitter.Span>,
                                       maxOut: nat)
    requires AllFollow(all, bs, spans)
    ensures OutcomeOf(src, bs, maxOut) == OutcomeOfSpans(src, all, spans, maxOut)
    decreases |bs|
  {
    if bs == [] {
    } else {
      assert Follows(all, bs[0], spans[0]);
      assert AllFollow(all, bs[1..], spans[1..]);
      SpansDecide(src, all, bs[1..], spans[1..], maxOut);
    }
  }

  /** With a ceiling, out decodes to r. */
  ghost predicate Decodes(out: seq<byte>, maxOut: nat, r: Outcome) {
    DecodesTo(out, 0, [], BlockDecode.EmptyTables(), maxOut, r)
  }

  /**
   * An LZFSE stream decodes to its source unless a block of the source has more than 10000 records or passes the
   * ceiling; the first such block decides between the two errors.
   */
  lemma LzfseStreamDecodes(src: seq<byte>, bs: seq<Block>, out: seq<byte>, maxOut: nat)
    requires IsLzfse(src, bs, out) && |src| < 0x1_0000_0000
    ensures Decodes(out, maxOut, OutcomeOfSpans(src, FindMatches.Parse(src), SourceSpans(src), maxOut))
  {
    BlockDecode.EmptyTablesOk();
    assert StandsAt(out, 0, out) && src[..0] == [];
    EndMarkerEnds();
    StreamDecodes(src, 0, bs, out, 0, EndOfStreamBlock(), BlockDecode.EmptyTables(), maxOut);
    SpansDecide(src, FindMatches.Parse(src), bs, SourceSpans(src), maxOut);
  }

  /** Short trailing runs are enough: no packed block then exceeds the limit. */
  lemma ShortTailsFit(bs: seq<Block>)
    requires forall b <- bs :: RecordsBounded(b)
    requires forall b <- bs :: b.Packed? && b.ms != [] ==> TrailingRun(b) <= 630
    ensures AllRecordsFit(bs)
  {
    forall b <- bs
      ensures RecordsFit(b)
    {
      if b.Packed? {
        assert RecordsBounded(b);
        if TrailingRun(b) > 0 { Splitter.TrailingRecordsIsCeiling(TrailingRun(b)); }
      }
    }
  }

  // ---------------------------------------------------------------- stored and LZVN streams

  const UNCOMPRESSED_OVERHEAD := 8 + 4

  method CompressStored(src: seq<byte>) returns (out: seq<byte>)
    ensures out == StoredBlock(src) + EndOfStreamBlock() && |out| == |src| + UNCOMPRESSED_OVERHEAD
  {
    out := PutLE(WORD_32, MAGIC_UNCOMPRESSED) + PutLE(WORD_32, |src|) + src + PutLE(WORD_32, MAGIC_END_OF_STREAM);
  }

  /** What a stream that holds the source in one block decodes to, if the block decodes to r. */
  function OutcomeOfOne(src: seq<byte>, r: Option<seq<byte>>, maxOut: nat): Outcome {
    if |src| > maxOut then TooLarge else if r.None? then Invalid else Decoded(r.value)
  }

  lemma StoredStreamDecodes(src: seq<byte>, out: seq<byte>, maxOut: nat)
    requires |src| < 0x1_0000_0000 && out == StoredBlock(src) + EndOfStreamBlock()
    ensures Decodes(out, maxOut, OutcomeOfOne(src, Some(src), maxOut))
  {
    var t := BlockDecode.EmptyTables();
    BlockDecode.EmptyTablesOk();
    EndMarkerEnds();
    assert StandsAt(out, 0, out);
    AtParts(out, 0, StoredBlock(src), EndOfStreamBlock());
    assert src[0..|src|] == src && src[..0] == [] && src[..|src|] == src;
    if |src| > maxOut {
      StoredTooLarge(src, 0, |src|, out, 0, t, maxOut);
    } else {
      StoredDecodes(src, 0, |src|, out, 0, t, maxOut);
      EndDecodes(out, |StoredBlock(src)|, EndOfStreamBlock(), src, t, maxOut);
      StepThenRest(out, 0, [], t, maxOut, |StoredBlock(src)|, src, t, Decoded(src));
    }
  }

  function LzvnBlockBytes(raw: nat, payload: seq<byte>): seq<byte> {
    PutLE(WORD_32, MAGIC_COMPRESSED_LZVN) + PutLE(WORD_32, raw) + PutLE(WORD_32, |payload|) + payload
  }

  /** The payload of an LZVN block: the operations of the encoder's search and the end opcode. */
  ghost function LzvnPayload(src: seq<byte>): seq<byte> {
    LzvnEmit.Code(LzvnSearch.EncodeOps(src)) + LzvnEmit.END_OF_STREAM
  }

  ghost function LzvnStream(src: seq<byte>): seq<byte> {
    LzvnBlockBytes(|src|, LzvnPayload(src)) + EndOfStreamBlock()
  }

  method CompressLZVN(src: seq<byte>) returns (out: seq<byte>)
    ensures out == LzvnStream(src)
  {
    var code := LzvnEncode.EncodeBuffer(src);
    out := PutLE(WORD_32, MAGIC_COMPRESSED_LZVN) + PutLE(WORD_32, |src|) + PutLE(WORD_32, |code|) + code
           + PutLE(WORD_32, MAGIC_END_OF_STREAM);
  }

  lemma LzvnFieldsAt(stream: seq<byte>, pos: nat, raw: nat, payload: seq<byte>)
    requires At(stream, pos, LzvnBlockBytes(raw, payload)) && raw < 0x1_0000_0000 && |payload| < 0x1_0000_0000
    ensures pos + 12 + |payload| <= |stream| && LE(stream[pos..pos + 4]) == MAGIC_COMPRESSED_LZVN
    ensures LE(stream[pos + 4..pos + 8]) == raw && LE(stream[pos + 8..pos + 12]) == |payload|
    ensures stream[pos + 12..pos + 12 + |payload|] == payload
  {
    var a, b, c := PutLE(WORD_32, MAGIC_COMPRESSED_LZVN), PutLE(WORD_32, raw), PutLE(WORD_32, |payload|);
    AtParts(stream, pos, a + b + c, payload);
    assert StandsAt(stream, pos + 12, payload);
    AtParts(stream, pos, a + b, c);
    AtParts(stream, pos, a, b);
    Word32At(stream, pos, MAGIC_COMPRESSED_LZVN);
    Word32At(stream, pos + 4, raw);
    Word32At(stream, pos + 8, |payload|);
  }

  ghost predicate LzvnStepsTo(stream: seq<byte>, t: Tables, maxOut: nat, r: Step) {
    forall p: nat :: p == 0 && p <= |stream| ==> LzvnStep(stream, p, [], t, maxOut) == r
  }

  /** The step over an LZVN block that passes the expansion check, by what its payload decodes to. */
  function LzvnStepOf(payload: seq<byte>, raw: nat, t: Tables, maxOut: nat, r: Option<seq<byte>>): Step {
    if raw > maxOut then Stop(TooLarge) else if r.None? then Stop(Invalid) else Next(12 + |payload|, r.value, t)
  }

  lemma LzvnStepAtStart(stream: seq<byte>, raw: nat, payload: seq<byte>, t: Tables, maxOut: nat, r: Option<seq<byte>>)
    requires raw <= LZVN_MAX_EXPANSION * |payload| && PayloadGives(payload, raw, r)
    requires 12 + |payload| <= |stream| && stream[0 + 12..0 + 12 + |payload|] == payload
    requires LE(stream[0 + 4..0 + 8]) == raw && LE(stream[0 + 8..0 + 12]) == |payload|
    ensures LzvnStepsTo(stream, t, maxOut, LzvnStepOf(payload, raw, t, maxOut, r))
  {
    if raw > maxOut {
      LzvnStepLarge(stream, 0, [], t, maxOut, raw, |payload|);
    } else {
      LzvnStepIs(stream, 0, [], t, maxOut, raw, |payload|, payload, r);
      if r.Some? { assert [] + r.value == r.value; }
    }
  }

  lemma LzvnDecodes(stream: seq<byte>, t: Tables, maxOut: nat, r: Step)
    requires TablesOk(t) && 4 <= |stream| && LE(stream[0..0 + 4]) == MAGIC_COMPRESSED_LZVN
    requires LzvnStepsTo(stream, t, maxOut, r)
    ensures r.Next? ==> StepsTo(stream, 0, [], t, maxOut, r.pos, r.out, r.t)
    ensures r.Stop? ==> DecodesTo(stream, 0, [], t, maxOut, r.outcome)
  {
    KindOfMagic();
    assert LzvnStep(stream, 0, [], t, maxOut) == r;
    StepByKind(stream, 0, [], t, maxOut, CompressedLzvn, r);
    if r.Next? { StepsWhenNext(stream, 0, [], t, maxOut, r); } else { StepStops(stream, 0, [], t, maxOut, r.outcome); }
  }

  lemma LzvnBlockDecodes(raw: nat, payload: seq<byte>, stream: seq<byte>, t: Tables, maxOut: nat, r: Option<seq<byte>>,
                         step: Step)
    requires raw < 0x1_0000_0000 && |payload| < 0x1_0000_0000 && TablesOk(t)
    requires raw <= LZVN_MAX_EXPANSION * |payload| && PayloadGives(payload, raw, r)
    requires At(stream, 0, LzvnBlockBytes(raw, payload)) && step == LzvnStepOf(payload, raw, t, maxOut, r)
    ensures step.Next? ==> StepsTo(stream, 0, [], t, maxOut, step.pos, step.out, t)
    ensures step.Stop? ==> DecodesTo(stream, 0, [], t, maxOut, step.outcome)
  {
    LzvnFieldsAt(stream, 0, raw, payload);
    LzvnStepAtStart(stream, raw, payload, t, maxOut, r);
    LzvnDecodes(stream, t, maxOut, step);
  }

  /** An LZVN stream decodes to what its payload decodes to, and is refused if that fails. */
  lemma LzvnStreamDecodes(src: seq<byte>, payload: seq<byte>, out: seq<byte>, r: Option<seq<byte>>, maxOut: nat)
    requires |src| < 0x1_0000_0000 && |payload| < 0x1_0000_0000 && |src| <= LZVN_MAX_EXPANSION * |payload|
    requires PayloadGives(payload, |src|, r) && out == LzvnBlockBytes(|src|, payload) + EndOfStreamBlock()
    ensures Decodes(out, maxOut, OutcomeOfOne(src, r, maxOut))
  {
    var t, block := BlockDecode.EmptyTables(), LzvnBlockBytes(|src|, payload);
    var step := LzvnStepOf(payload, |src|, t, maxOut, r);
    BlockDecode.EmptyTablesOk();
    EndMarkerEnds();
    assert StandsAt(out, 0, out);
    AtParts(out, 0, block, EndOfStreamBlock());
    LzvnBlockDecodes(|src|, payload, out, t, maxOut, r, step);
    if step.Next? {
      EndDecodes(out, |block|, EndOfStreamBlock(), r.value, t, maxOut);
      StepThenRest(out, 0, [], t, maxOut, |block|, r.value, t, Decoded(r.value));
    }
  }

  // ---------------------------------------------------------------- Compress

  const ENCODE_LZVN_THRESHOLD := 4096

  /** The form Compress chose, which the first four bytes of its output show. */
  datatype Form = StoredForm | LzvnForm | LzfseForm

  /** What the decoder makes of the payload of the LZVN form. */
  ghost function PayloadAnswer(src: seq<byte>): Option<seq<byte>> {
    LzvnDecode.Decode(LzvnPayload(src), [], 0, |src|)
  }

  /** What the stream of a source in each form decodes to under a ceiling: a function of the source alone. */
  ghost function OutcomeOfForm(src: seq<byte>, form: Form, maxOut: nat): Outcome {
    match form
    case StoredForm => OutcomeOfOne(src, Some(src), maxOut)
    case LzvnForm => OutcomeOfOne(src, PayloadAnswer(src), maxOut)
    case LzfseForm => OutcomeOfSpans(src, FindMatches.Parse(src), SourceSpans(src), maxOut)
  }

  /** The stored form is chosen when the compressed one would not be shorter than it. */
  ghost predicate NotShorter(src: seq<byte>) {
    if |src| <= ENCODE_LZVN_THRESHOLD then |LzvnStream(src)| >= |src| + UNCOMPRESSED_OVERHEAD
    else exists bs, stream :: IsLzfse(src, bs, stream) && |stream| >= |src| + UNCOMPRESSED_OVERHEAD
  }

  /** What out holds in each form. */
  ghost predicate HasForm(src: seq<byte>, out: seq<byte>, form: Form) {
    match form
    case StoredForm => out == StoredBlock(src) + EndOfStreamBlock() && NotShorter(src)
    case LzvnForm =>
      |src| <= ENCODE_LZVN_THRESHOLD && out == LzvnStream(src) && |out| < |src| + UNCOMPRESSED_OVERHEAD
    case LzfseForm =>
      |src| > ENCODE_LZVN_THRESHOLD && |out| < |src| + UNCOMPRESSED_OVERHEAD && exists bs :: IsLzfse(src, bs, out)
  }

  lemma LzvnFormDecodes(src: seq<byte>, out: seq<byte>, maxOut: nat)
    requires out == LzvnStream(src) && |src| < 0x1_0000_0000 && |out| < 0x1_0000_0000
    ensures Decodes(out, maxOut, OutcomeOfOne(src, PayloadAnswer(src), maxOut))
  {
    var ops := LzvnSearch.EncodeOps(src);
    LzvnSearch.EncodeOpsReplay(src);
    LzvnEmit.CodeCovers(ops);
    LzvnStreamDecodes(src, LzvnPayload(src), out, PayloadAnswer(src), maxOut);
  }

  /** Literal runs of at most 271 bytes are enough for an LZVN payload that gives the source back. */
  lemma ShortRunsComeBack(src: seq<byte>)
    requires LzvnEmit.ShortRuns(LzvnSearch.EncodeOps(src))
    ensures PayloadAnswer(src) == Some(src)
  {
    LzvnSearch.EncodeOpsReplay(src);
    LzvnEmit.StreamDecodes(LzvnSearch.EncodeOps(src), |src|);
  }

  lemma FormDecodes(src: seq<byte>, out: seq<byte>, form: Form, maxOut: nat)
    requires HasForm(src, out, form) && |src| < 0x8000_0000 && |out| <= |src| + UNCOMPRESSED_OVERHEAD
    ensures Decodes(out, maxOut, OutcomeOfForm(src, form, maxOut))
  {
    match form
    case StoredForm => StoredStreamDecodes(src, out, maxOut);
    case LzvnForm => LzvnFormDecodes(src, out, maxOut);
    case LzfseForm =>
      var bs :| IsLzfse(src, bs, out);
      LzfseStreamDecodes(src, bs, out, maxOut);
  }

  /** Under every ceiling out decodes to the outcome of its form. */
  ghost predicate DecodesAs(src: seq<byte>, out: seq<byte>, form: Form) {
    forall maxOut: nat :: Decodes(out, maxOut, OutcomeOfForm(src, form, maxOut))
  }

  /**
   * Compress: LZVN up to 4096 bytes, LZFSE above, raw when neither shrinks the input. The result never exceeds
   * the input by more than 12 bytes, and under every ceiling it decodes to exactly what its form says: the source
   * if stored, what the payload decodes to if LZVN, and the source or an error by the record counts of the
   * source's blocks if LZFSE.
   */
  method Compress(src: seq<byte>) returns (out: seq<byte>, ghost form: Form)
    requires |src| < 0x8000_0000
    ensures HasForm(src, out, form) && DecodesAs(src, out, form)
    ensures |out| <= |src| + UNCOMPRESSED_OVERHEAD
  {
    out, form := ShorterForm(src);
    forall maxOut: nat
      ensures Decodes(out, maxOut, OutcomeOfForm(src, form, maxOut))
    {
      FormDecodes(src, out, form, maxOut);
    }
  }

  method ShorterForm(src: seq<byte>) returns (out: seq<byte>, ghost form: Form)
    requires |src| < 0x8000_0000
    ensures HasForm(src, out, form) && |out| <= |src| + UNCOMPRESSED_OVERHEAD
  {
    if |src| <= ENCODE_LZVN_THRESHOLD {
      out := CompressLZVN(src);
      if |out| < |src| + UNCOMPRESSED_OVERHEAD {
        return out, LzvnForm;
      }
    } else {
      ghost var bs;
      out, bs := CompressLZFSE(src);
      if |out| < |src| + UNCOMPRESSED_OVERHEAD {
        return out, LzfseForm;
      }
    }
    out := CompressStored(src);
    form := StoredForm;
  }

  /** Compress then DecompressLimit, both as the code runs them, under any ceiling. */
  method RoundTrip(src: seq<byte>, maxOut: nat) returns (out: seq<byte>, r: Outcome, ghost form: Form)
    requires |src| < 0x8000_0000
    ensures HasForm(src, out, form) && Decodes(out, maxOut, r)
    ensures r == OutcomeOfForm(src, form, maxOut)
  {
    out, form := Compress(src);
    r := DecompressLimit(out, maxOut);
    assert Decodes(out, maxOut, OutcomeOfForm(src, form, maxOut));
    OneOutcome(out, 0, [], BlockDecode.EmptyTables(), maxOut, r, OutcomeOfForm(src, form, maxOut));
  }
}
