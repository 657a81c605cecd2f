/** Compress and DecompressLimit together: which sources come back, and concrete ones that do not. */
module RoundTrips {
  import opened Bits
  import opened Records
  import opened BlockSpec
  import opened Decompress
  import opened Compress
  import StreamFormat
  import opened BlockRoundTrip
  import LzvnLongRuns
  import RecordLimit

  // ---------------------------------------------------------------- the outcome of an LZFSE stream

  /** A block of more than 10000 records that begins within the ceiling. */
  ghost predicate Overfull(all: seq<Match>, spans: seq<Splitter.Span>, maxOut: nat) {
    exists p <- spans :: !Splitter.SpanFits(all, p) && p.start <= maxOut
  }

  lemma OverfullFirst(all: seq<Match>, spans: seq<Splitter.Span>, maxOut: nat)
    requires spans != [] && spans[0].start <= maxOut
    ensures Overfull(all, spans, maxOut)
            <==> !Splitter.SpanFits(all, spans[0]) || Overfull(all, spans[1..], maxOut)
  {
    assert spans[0] in spans && forall p <- spans[1..] :: p in spans;
    assert forall p <- spans :: p == spans[0] || p in spans[1..];
  }

  lemma NotOverfullBeyond(src: seq<byte>, all: seq<Match>, start: nat, spans: seq<Splitter.Span>, maxOut: nat)
    requires Splitter.SpansFrom(src, all, start, spans) && maxOut < start
    ensures !Overfull(all, spans, maxOut)
  {
    forall p <- spans
      ensures p.start > maxOut
    {
      var i :| 0 <= i < |spans| && spans[i] == p;
      Splitter.SpanInside(src, all, start, spans, i);
    }
  }

  /** The decoder's walk over the blocks, in closed form. */
  lemma {:induction false} SpansOutcome(src: seq<byte>, all: seq<Match>, start: nat, spans: seq<Splitter.Span>,
                                        maxOut: nat)
    requires Splitter.SpansFrom(src, all, start, spans) && start <= maxOut
    ensures OutcomeOfSpans(src, all, spans, maxOut)
            == if Overfull(all, spans, maxOut) then Invalid else if |src| > maxOut then TooLarge else Decoded(src)
    decreases |spans|
  {
    if spans == [] {
      assert !Overfull(all, spans, maxOut);
    } else {
      OverfullFirst(all, spans, maxOut);
      Splitter.SpanInside(src, all, start, spans, 0);
      if spans[0].end > maxOut {
        NotOverfullBeyond(src, all, spans[0].end, spans[1..], maxOut);
      } else {
        SpansOutcome(src, all, spans[0].end, spans[1..], maxOut);
      }
    }
  }

  /**
   * The exact outcome of a source's LZFSE stream under every ceiling: an error if one of the source's blocks that
   * begins within the ceiling has more than 10000 records, else too large if the source is, else the source.
   */
  lemma LzfseOutcome(src: seq<byte>, maxOut: nat)
    ensures OutcomeOfForm(src, LzfseForm, maxOut)
            == if Overfull(FindMatches.Parse(src), SourceSpans(src), maxOut) then Invalid
               else if |src| > maxOut then TooLarge else Decoded(src)
  {
    ParsePlaced(src);
    Splitter.SpansPartition(src, FindMatches.Parse(src), 0, 0);
    SpansOutcome(src, FindMatches.Parse(src), 0, SourceSpans(src), maxOut);
  }

  // ---------------------------------------------------------------- which sources come back

  /** Every block of the source has no match, or at most 10000 records. */
  ghost predicate AllSpansFit(src: seq<byte>) {
    forall p <- SourceSpans(src) :: Splitter.SpanFits(FindMatches.Parse(src), p)
  }

  /** No literal run of more than 271 bytes up to 4096 bytes, no block of more than 10000 records above. */
  ghost predicate Qualifies(src: seq<byte>) {
    if |src| <= ENCODE_LZVN_THRESHOLD then LzvnEmit.ShortRuns(LzvnSearch.EncodeOps(src)) else AllSpansFit(src)
  }

  lemma OverfullWhenAdmitted(src: seq<byte>, maxOut: nat)
    requires |src| <= maxOut
    ensures Overfull(FindMatches.Parse(src), SourceSpans(src), maxOut) <==> !AllSpansFit(src)
  {
    var all, spans := FindMatches.Parse(src), SourceSpans(src);
    ParsePlaced(src);
    Splitter.SpansPartition(src, all, 0, 0);
    forall p <- spans
      ensures p.start <= maxOut
    {
      var i :| 0 <= i < |spans| && spans[i] == p;
      Splitter.SpanInside(src, all, 0, spans, i);
    }
  }

  /**
   * When a source comes back, decided before the call. It does if it qualifies. Above 4096 bytes one that does not
   * is refused, unless it is stored; up to 4096 the payload's answer decides.
   */
  lemma ComesBack(src: seq<byte>, out: seq<byte>, form: Form, maxOut: nat)
    requires HasForm(src, out, form) && |src| <= maxOut
    ensures Qualifies(src) ==> OutcomeOfForm(src, form, maxOut) == Decoded(src)
    ensures form.LzfseForm? ==> OutcomeOfForm(src, form, maxOut) == if Qualifies(src) then Decoded(src) else Invalid
    ensures form.LzvnForm? ==> (OutcomeOfForm(src, form, maxOut) == Decoded(src) <==> PayloadAnswer(src) == Some(src))
  {
    match form
    case StoredForm =>
    case LzvnForm => if Qualifies(src) { ShortRunsComeBack(src); }
    case LzfseForm =>
      LzfseOutcome(src, maxOut);
      OverfullWhenAdmitted(src, maxOut);
  }

  /** No operation carries more literals than its list replays to. */
  lemma {:induction false} RunsWithinReplay(ops: seq<LzvnEmit.Op>)
    requires LzvnEmit.ValidOps(ops)
    ensures forall op <- ops :: |op.p| <= |LzvnEmit.Replay(ops)|
  {
    if ops == [] {
    } else {
      var init, last := LzvnEmit.Init(ops), LzvnEmit.Last(ops);
      RunsWithinReplay(init);
      assert ops == init + [last];
    }
  }

  lemma ShortBlocksFit(src: seq<byte>)
    requires |src| <= 30000
    ensures AllSpansFit(src)
  {
    var all, spans := FindMatches.Parse(src), SourceSpans(src);
    ParsePlaced(src);
    FindMatches.ParseIsValid(src);
    Splitter.SpansPartition(src, all, 0, 0);
    forall p <- spans
      ensures Splitter.SpanFits(all, p)
    {
      var i :| 0 <= i < |spans| && spans[i] == p;
      Splitter.SpanInside(src, all, 0, spans, i);
      ShortBlockFits(src, all, p);
    }
  }

  lemma ShortBlockFits(src: seq<byte>, all: seq<Match>, p: Splitter.Span)
    requires Splitter.BlockFits(src, all, p.start, p.first, p.last, p.end) && FindMatches.AllLong(all)
    requires |src| <= 30000
    ensures Splitter.SpanFits(all, p)
  {
    Splitter.RecordsPerByte(src, all, p.start, p.first, p.last, p.end);
  }

  /** Two ranges of lengths in which every source qualifies. */
  lemma ShortSourcesQualify(src: seq<byte>)
    ensures |src| <= LzvnEmit.MAX_BACKLOG || ENCODE_LZVN_THRESHOLD < |src| <= 30000 ==> Qualifies(src)
  {
    if |src| <= LzvnEmit.MAX_BACKLOG {
      LzvnSearch.EncodeOpsReplay(src);
      RunsWithinReplay(LzvnSearch.EncodeOps(src));
    } else if ENCODE_LZVN_THRESHOLD < |src| <= 30000 {
      ShortBlocksFit(src);
    }
  }

  /** Compress and DecompressLimit invert each other on every source that qualifies, these lengths among them. */
  method CompressAndBack(src: seq<byte>, maxOut: nat) returns (out: seq<byte>, r: Outcome)
    requires |src| < 0x8000_0000
    ensures Decodes(out, maxOut, r)
    ensures |src| <= maxOut && Qualifies(src) ==> r == Decoded(src)
    ensures |src| <= maxOut && (|src| <= LzvnEmit.MAX_BACKLOG || ENCODE_LZVN_THRESHOLD < |src| <= 30000)
            ==> r == Decoded(src)
  {
    ghost var form;
    out, r, form := RoundTrip(src, maxOut);
    ShortSourcesQualify(src);
    if |src| <= maxOut { ComesBack(src, out, form, maxOut); }
  }

  // ---------------------------------------------------------------- the record limit is exceeded

  /** The sizes of a packed block, from its counts. */
  lemma PackedSize(src: seq<byte>, start: nat, b: Block)
    requires b.Packed? && Encodes(src, start, b)
    ensures 8 * |BlockBytes(src, start, b)| <= 8 * 662 + 10 * LITERALS_PER_BLOCK + 54 * b.h.nMatches + 78
  {
    assert IsPacked(src, start, b);
    HeaderFieldsFit(b.h, b.lit, b.lmd, Uncovered(src, start, b.ms, b.end) + b.pad, BlockRecords(start, b.ms, b.end));
    BlockSizes(src, start, b);
  }

  lemma OneBlockStream(src: seq<byte>, bs: seq<Block>, out: seq<byte>)
    requires |bs| == 1 && bs[0].Packed? && IsCompressed(src, bs, out)
    ensures Encodes(src, 0, bs[0]) && |out| == |BlockBytes(src, 0, bs[0])| + 4
  {
    assert bs[1..] == [] && Partition(src, bs[0].end, [], |src|);
    StreamBytesStep(src, 0, bs, |src|, BlockBytes(src, 0, bs[0]), []);
  }

  lemma OneBlockSize(src: seq<byte>, bs: seq<Block>, out: seq<byte>)
    requires |bs| == 1 && bs[0].Packed? && bs[0].h.nMatches == 10001 && IsCompressed(src, bs, out)
    ensures |out| <= 120000
  {
    OneBlockStream(src, bs, out);
    PackedSize(src, 0, bs[0]);
  }

  /** A match list that fits one block: the span, and the records of its block in any LZFSE stream of the source. */
  lemma OneBlockRecords(src: seq<byte>, all: seq<Match>, records: nat)
    requires all == FindMatches.Parse(src) && RecordLimit.FitsOneBlock(src, all, records)
    ensures SourceSpans(src) == [Splitter.Span(0, 0, |all|, |src|)]
    ensures Splitter.SpanRecords(all, SourceSpans(src)[0]) == records
    ensures forall bs: seq<Block>, out :: IsLzfse(src, bs, out) ==>
              |bs| == 1 && bs[0].Packed? && bs[0].h.nMatches == records
  {
    ParsePlaced(src);
    Splitter.OneSpan(src, all);
    forall bs: seq<Block>, out | IsLzfse(src, bs, out)
      ensures |bs| == 1 && bs[0].Packed? && bs[0].h.nMatches == records
    {
      assert Follows(all, bs[0], SourceSpans(src)[0]);
    }
  }

  lemma OneBlockOverfull(src: seq<byte>, all: seq<Match>)
    requires all == FindMatches.Parse(src) && RecordLimit.FitsOneBlock(src, all, 10001)
    ensures Overfull(all, SourceSpans(src), 0) && !AllSpansFit(src)
    ensures forall bs: seq<Block>, out :: IsLzfse(src, bs, out) ==> |out| <= 120000
  {
    OneBlockRecords(src, all, 10001);
    assert SourceSpans(src)[0] in SourceSpans(src) && !Splitter.SpanFits(all, SourceSpans(src)[0]);
    forall bs: seq<Block>, out | IsLzfse(src, bs, out)
      ensures |out| <= 120000
    {
      OneBlockSize(src, bs, out);
    }
  }

  /** The one block of this source has 10001 records, and every LZFSE stream of it is far shorter than the source. */
  lemma ManyMatchesStreams(src: seq<byte>)
    requires src == RecordLimit.ManyMatches()
    ensures Overfull(FindMatches.Parse(src), SourceSpans(src), 0) && !AllSpansFit(src)
    ensures forall bs: seq<Block>, out :: IsLzfse(src, bs, out) ==> |out| <= 120000
  {
    RecordLimit.ParseOfManyMatches();
    RecordLimit.ManyRecords();
    OneBlockOverfull(src, RecordLimit.FirstMatches(RecordLimit.CHUNKS));
  }

  lemma OverfullAlways(all: seq<Match>, spans: seq<Splitter.Span>, maxOut: nat)
    requires Overfull(all, spans, 0)
    ensures Overfull(all, spans, maxOut)
  {
    var p :| p in spans && !Splitter.SpanFits(all, p) && p.start <= 0;
    assert p.start <= maxOut;
  }

  /**
   * The record bound the splitter's comments claim does not hold: the match finder finds 9998 matches in this
   * source, Compress sends them as one block of 10001 records, and the decoder refuses the stream under any ceiling.
   */
  method RecordLimitExceeded(maxOut: nat) returns (src: seq<byte>, out: seq<byte>, r: Outcome, ghost form: Form)
    ensures src == RecordLimit.ManyMatches() && !AllSpansFit(src)
    ensures HasForm(src, out, form) && form.LzfseForm? && Decodes(out, maxOut, r) && r == Invalid
  {
    src := RecordLimit.ManyMatches();
    out, r, form := RoundTrip(src, maxOut);
    ManyMatchesStreams(src);
    OverfullAlways(FindMatches.Parse(src), SourceSpans(src), maxOut);
    LzfseOutcome(src, maxOut);
  }

  // ---------------------------------------------------------------- a literal run is too long

  /**
   * The public round trip fails through LZVN: these 479 bytes leave as an LZVN block of 309 bytes whose last run
   * is 278 literals, and the decoder refuses it under any ceiling.
   */
  method LongRunRefused(maxOut: nat) returns (src: seq<byte>, out: seq<byte>, r: Outcome)
    ensures src == LzvnLongRuns.ZerosThenTail() && out == LzvnStream(src) && |out| == 309
    ensures Decodes(out, maxOut, r) && r == if maxOut < 479 then TooLarge else Invalid
  {
    src := LzvnLongRuns.ZerosThenTail();
    ghost var form;
    out, r, form := RoundTrip(src, maxOut);
    LongRunForm(src, out, form);
  }

  lemma LongRunForm(src: seq<byte>, out: seq<byte>, form: Form)
    requires src == LzvnLongRuns.ZerosThenTail() && HasForm(src, out, form)
    ensures form.LzvnForm? && out == LzvnStream(src) && |out| == 309 && PayloadAnswer(src) == None
  {
    LzvnLongRuns.ZerosThenTailCode(src, LzvnPayload(src));
    StreamSize(src);
    LongRunAnswer(src);
  }

  lemma StreamSize(src: seq<byte>)
    ensures |LzvnStream(src)| == 16 + |LzvnPayload(src)|
  {
  }

  lemma LongRunAnswer(src: seq<byte>)
    requires src == LzvnLongRuns.ZerosThenTail()
    ensures PayloadAnswer(src) == None
  {
    LzvnLongRuns.ZerosThenTailFails(src, LzvnPayload(src), |src|);
  }

  // ---------------------------------------------------------------- the stream Compress writes

  /** A tag and a number put at the front of a stream. */
  lemma {:induction false} FrontReads(last: char, n: nat, rest: seq<byte>, out: seq<byte>)
    requires last as int < 256 && n < 0x1_0000_0000
    requires out == PutLE(WORD_32, 0x787662 + 16777216 * (last as int)) + PutLE(WORD_32, n) + rest
    ensures StreamFormat.Tag(out, 0, last) && StreamFormat.Num32(out, 4) == n && out[8..] == rest
  {
    var tag := PutLE(WORD_32, 0x787662 + 16777216 * (last as int));
    Pow2Big();
    PutLERoundTrip(WORD_32, 0x787662 + 16777216 * (last as int));
    PutLERoundTrip(WORD_32, n);
    assert out[0..4] == tag && out[4..8] == PutLE(WORD_32, n);
    StreamFormat.TagIsMagic(out, 0, last);
    StreamFormat.FourBytes(out, 4);
  }

  lemma {:induction false} EndReads(front: seq<byte>, out: seq<byte>)
    requires out == front + EndOfStreamBlock()
    ensures |out| == |front| + 4 && StreamFormat.Tag(out, |front|, '$')
  {
    Pow2Big();
    PutLERoundTrip(WORD_32, 0x24787662);
    assert out[|front|..|front| + 4] == EndOfStreamBlock();
    StreamFormat.TagIsMagic(out, |front|, '$');
  }

  lemma {:induction false} StoredOnBytes(src: seq<byte>, out: seq<byte>)
    requires out == Compress.StoredBlock(src) + EndOfStreamBlock() && |src| < 0x8000_0000
    ensures |out| == |src| + 12 && StreamFormat.Tag(out, 0, '-') && StreamFormat.Num32(out, 4) == |src|
    ensures out[8..|out| - 4] == src && StreamFormat.Tag(out, |out| - 4, '$')
  {
    EndReads(Compress.StoredBlock(src), out);
    assert Compress.StoredBlock(src) + EndOfStreamBlock()
        == PutLE(WORD_32, MAGIC_UNCOMPRESSED) + PutLE(WORD_32, |src|) + (src + EndOfStreamBlock());
    FrontReads('-', |src|, src + EndOfStreamBlock(), out);
    assert out[8..][..|src|] == src;
  }

  lemma {:induction false} LzvnOnBytes(raw: nat, payload: seq<byte>, out: seq<byte>)
    requires out == LzvnBlockBytes(raw, payload) + EndOfStreamBlock() && raw < 0x8000_0000
    ensures |out| >= 16 && StreamFormat.Tag(out, 0, 'n') && StreamFormat.Num32(out, 4) == raw
    ensures StreamFormat.Tag(out, |out| - 4, '$')
  {
    var rest := PutLE(WORD_32, |payload|) + payload + EndOfStreamBlock();
    EndReads(LzvnBlockBytes(raw, payload), out);
    assert LzvnBlockBytes(raw, payload) + EndOfStreamBlock()
        == PutLE(WORD_32, MAGIC_COMPRESSED_LZVN) + PutLE(WORD_32, raw) + rest;
    FrontReads('n', raw, rest, out);
  }

  /** What out is in each form, on its bytes. */
  ghost predicate FormShows(src: seq<byte>, out: seq<byte>, form: Form) {
    && |out| >= 12 && StreamFormat.Tag(out, |out| - 4, '$')
    && match form
       case StoredForm =>
         && |out| == |src| + 12 && StreamFormat.Tag(out, 0, '-') && StreamFormat.Num32(out, 4) == |src|
         && out[8..|out| - 4] == src
       case LzvnForm =>
         && |src| <= 4096 && |out| < |src| + 12 && StreamFormat.Tag(out, 0, 'n')
         && StreamFormat.Num32(out, 4) == |src|
       case LzfseForm => |src| > 4096 && |out| < |src| + 12
  }

  /**
   * What Compress writes, on the bytes: a stream closed by "bvx$"; the stored form is "bvx-", the length and the
   * source, twelve bytes more than it; the other is shorter than that, and up to 4096 bytes it is one LZVN block.
   */
  lemma {:induction false} FormOnBytes(src: seq<byte>, out: seq<byte>, form: Form)
    requires HasForm(src, out, form) && |src| < 0x8000_0000
    ensures FormShows(src, out, form)
  {
    match form
    case StoredForm => StoredOnBytes(src, out);
    case LzvnForm => LzvnOnBytes(|src|, LzvnPayload(src), out);
    case LzfseForm => LzfseOnBytes(src, out);
  }

  lemma {:induction false} LzfseOnBytes(src: seq<byte>, out: seq<byte>)
    requires |src| > 4096 && exists bs :: IsLzfse(src, bs, out)
    ensures |out| >= 12 && StreamFormat.Tag(out, |out| - 4, '$')
  {
    var bs :| IsLzfse(src, bs, out);
    EndReads(StreamBytes(src, 0, bs, |src|), out);
    FirstBlockSize(src, bs);
  }

  lemma {:induction false} FirstBlockSize(src: seq<byte>, bs: seq<Block>)
    requires Partition(src, 0, bs, |src|) && src != []
    ensures |StreamBytes(src, 0, bs, |src|)| >= 8
  {
    var b := bs[0];
    assert Encodes(src, 0, b);
    if b.Packed? { assert IsPacked(src, 0, b); }
  }
}
