/** What a compressed block decodes to: four interleaved literal streams, the L/M/D stream, and LZ replay. */
module BlockSpec {
  import opened Bits
  import opened FseTables
  import opened FseStream
  import opened FseCoder
  import opened Lmd
  import opened Records

  const MAGIC_END_OF_STREAM := 0x24787662
  const MAGIC_UNCOMPRESSED := 0x2d787662
  const MAGIC_COMPRESSED_V1 := 0x31787662
  const MAGIC_COMPRESSED_V2 := 0x32787662
  const MAGIC_COMPRESSED_LZVN := 0x6e787662

  const LITERALS_PER_BLOCK := 40000
  const MATCHES_PER_BLOCK := 10000

  // Number of states of each table, as a power of two.
  const LIT_P: nat := 10
  const L_P: nat := 6
  const M_P: nat := 6
  const D_P: nat := 8

  /** The block header (V1 layout; both header versions decode to it). */
  datatype Header = Header(
    nRawBytes: nat, nLiterals: nat, nMatches: nat, nLiteralPayloadBytes: nat, nLMDPayloadBytes: nat,
    literalBits: int, literalState: seq<nat>, lmdBits: int, lState: nat, mState: nat, dState: nat,
    lFreq: seq<nat>, mFreq: seq<nat>, dFreq: seq<nat>, literalFreq: seq<nat>)

  /** Array sizes, and initial states inside their tables (the check rawFitsBlock makes). */
  predicate HeaderOk(h: Header) {
    && |h.lFreq| == 20 && |h.mFreq| == 20 && |h.dFreq| == 64 && |h.literalFreq| == 256
    && StatesOk(h.literalState) && h.lState < Pow2(L_P) && h.mState < Pow2(M_P) && h.dState < Pow2(D_P)
  }

  predicate StatesOk(st: seq<nat>) {
    |st| == 4 && st[0] < Pow2(LIT_P) && st[1] < Pow2(LIT_P) && st[2] < Pow2(LIT_P) && st[3] < Pow2(LIT_P)
  }

  /** Each table's frequencies sum to at most its state count (freqSumOK). */
  predicate FreqsFit(h: Header) {
    && Sum(h.literalFreq) <= Pow2(LIT_P) && Sum(h.lFreq) <= Pow2(L_P)
    && Sum(h.mFreq) <= Pow2(M_P) && Sum(h.dFreq) <= Pow2(D_P)
  }

  /** The four decode tables, reused from block to block. */
  datatype Tables = Tables(lit: seq<DecEntry>, l: seq<ValueEntry>, m: seq<ValueEntry>, d: seq<ValueEntry>)

  ghost predicate TablesOk(t: Tables) {
    && SafeTable(t.lit, LIT_P) && SafeValueTable(t.l, L_P, 8, MAX_L)
    && SafeValueTable(t.m, M_P, 11, MAX_M) && SafeValueTable(t.d, D_P, 15, MAX_D)
  }

  /** The tables for a header, written over whatever an earlier block left. */
  function BuildTables(h: Header, was: Tables): Tables
    requires FreqsFit(h) && |h.lFreq| == 20 && |h.mFreq| == 20 && |h.dFreq| == 64
  {
    Tables(DecTable(h.literalFreq, LIT_P, was.lit),
           ValueTable(h.lFreq, L_P, L_EXTRA, L_BASE, was.l),
           ValueTable(h.mFreq, M_P, M_EXTRA, M_BASE, was.m),
           ValueTable(h.dFreq, D_P, D_EXTRA, D_BASE, was.d))
  }

  lemma TableRange(base: seq<int>, extra: seq<nat>, max: int, maxExtra: nat)
    requires Row(base, extra, 0, max) && forall s :: 0 <= s < |extra| ==> extra[s] <= maxExtra
    ensures forall s :: 0 <= s < |extra| ==>
      0 <= base[s] && extra[s] <= maxExtra && base[s] + Pow2(extra[s]) - 1 <= max
  {
    forall s | 0 <= s < |extra|
      ensures 0 <= base[s] && base[s] + Pow2(extra[s]) - 1 <= max
    {
      RowBounds(base, extra, 0, max, s);
    }
  }

  lemma DExtraBound()
    ensures forall s :: 0 <= s < |D_EXTRA| ==> D_EXTRA[s] <= 15
  {
    assert forall s :: 0 <= s < 16 ==> D_EXTRA_0[s] <= 15;
    assert forall s :: 0 <= s < 16 ==> D_EXTRA_1[s] <= 15;
    assert forall s :: 0 <= s < 16 ==> D_EXTRA_2[s] <= 15;
    assert forall s :: 0 <= s < 16 ==> D_EXTRA_3[s] <= 15;
  }

  /** Rebuilding the tables keeps every entry safe, so no later state can leave its table. */
  lemma BuiltTablesOk(h: Header, was: Tables)
    requires HeaderOk(h) && FreqsFit(h) && TablesOk(was)
    ensures TablesOk(BuildTables(h, was))
  {
    LTable();
    MTable();
    DTable();
    DExtraBound();
    TableRange(L_BASE, L_EXTRA, MAX_L, 8);
    TableRange(M_BASE, M_EXTRA, MAX_M, 11);
    TableRange(D_BASE, D_EXTRA, MAX_D, 15);
    DecTableSafe(h.literalFreq, LIT_P, was.lit);
    ValueTableSafe(h.lFreq, L_P, L_EXTRA, L_BASE, was.l, 8, MAX_L);
    ValueTableSafe(h.mFreq, M_P, M_EXTRA, M_BASE, was.m, 11, MAX_M);
    ValueTableSafe(h.dFreq, D_P, D_EXTRA, D_BASE, was.d, 15, MAX_D);
  }

  // ---------------------------------------------------------------- the two bit streams

  /** One literal step; safe on any input. */
  ghost function LitStep(t: seq<DecEntry>, state: nat, buf: seq<byte>, s: InState, k: nat): (d: Decoded)
    requires SafeTable(t, LIT_P) && state < Pow2(LIT_P) && Safe(buf, s, k) && LIT_P <= k
    ensures 0 <= d.state < Pow2(LIT_P) && 0 <= d.value < 256 && Safe(buf, d.input, k - LIT_P)
  {
    DecodeStaysInside(t, LIT_P, state, buf, s, k);
    FseDecodeF(t, state, s)
  }

  datatype Group = Group(bytes: seq<byte>, states: seq<nat>, input: InState)

  /** A refill, then one literal from each of the four states. */
  ghost function LitGroup(t: seq<DecEntry>, buf: seq<byte>, s: InState, st: seq<nat>): (g: Group)
    requires SafeTable(t, LIT_P) && Safe(buf, s, 0) && StatesOk(st)
    ensures |g.bytes| == 4 && StatesOk(g.states) && Safe(buf, g.input, 0)
  {
    FlushSafe(buf, s);
    var d0 := LitStep(t, st[0], buf, FlushF(buf, s), 56);
    var d1 := LitStep(t, st[1], buf, d0.input, 46);
    var d2 := LitStep(t, st[2], buf, d1.input, 36);
    var d3 := LitStep(t, st[3], buf, d2.input, 26);
    SafeWeaken(buf, d3.input, 16, 0);
    Group([d0.value, d1.value, d2.value, d3.value], [d0.state, d1.state, d2.state, d3.state], d3.input)
  }

  /** The first 4 * n literals of a stream. */
  ghost function LitRun(t: seq<DecEntry>, buf: seq<byte>, s: InState, st: seq<nat>, n: nat): (r: seq<byte>)
    requires SafeTable(t, LIT_P) && Safe(buf, s, 0) && StatesOk(st)
    ensures |r| == 4 * n
    decreases n
  {
    if n == 0 then []
    else
      var g := LitGroup(t, buf, s, st);
      g.bytes + LitRun(t, buf, g.input, g.states, n - 1)
  }

  /** Decoding one group gives g, as a fact to pass around. */
  ghost predicate IsGroup(t: seq<DecEntry>, buf: seq<byte>, s: InState, st: seq<nat>, g: Group) {
    && SafeTable(t, LIT_P) && Safe(buf, s, 0) && StatesOk(st)
    && |g.bytes| == 4 && StatesOk(g.states) && Safe(buf, g.input, 0)
    && forall x: InState :: x == s ==> LitGroup(t, buf, x, st) == g
  }

  lemma LitRunStep(t: seq<DecEntry>, buf: seq<byte>, s: InState, st: seq<nat>, n: nat, g: Group)
    requires IsGroup(t, buf, s, st, g) && n > 0
    ensures LitRun(t, buf, s, st, n) == g.bytes + LitRun(t, buf, g.input, g.states, n - 1)
  {
    assert LitGroup(t, buf, s, st) == g;
  }

  /** The first group of a run, and what it leaves. */
  lemma LitRunUnfold(t: seq<DecEntry>, buf: seq<byte>, s: InState, st: seq<nat>, n: nat, g: Group, bytes: seq<byte>)
    returns (rest: seq<byte>)
    requires IsGroup(t, buf, s, st, g) && n > 0 && bytes == LitRun(t, buf, s, st, n)
    ensures rest == LitRun(t, buf, g.input, g.states, n - 1) && bytes == g.bytes + rest
  {
    LitRunStep(t, buf, s, st, n, g);
    rest := LitRun(t, buf, g.input, g.states, n - 1);
  }

  ghost function ValueStep(t: seq<ValueEntry>, p: nat, maxExtra: nat, maxValue: int, state: nat,
                           buf: seq<byte>, s: InState, k: nat): (d: Decoded)
    requires SafeValueTable(t, p, maxExtra, maxValue) && state < Pow2(p) && Safe(buf, s, k) && p + maxExtra <= k
    ensures 0 <= d.state < Pow2(p) && 0 <= d.value <= maxValue && Safe(buf, d.input, k - p - maxExtra)
  {
    ValueDecodeStaysInside(t, p, maxExtra, maxValue, state, buf, s, k);
    FseValueDecodeF(t, state, s)
  }

  /** The L/M/D decoder between two records: three states and the reader. */
  datatype LmdState = LmdState(l: nat, m: nat, d: nat, input: InState)

  ghost predicate LmdOk(buf: seq<byte>, s: LmdState) {
    s.l < Pow2(L_P) && s.m < Pow2(M_P) && s.d < Pow2(D_P) && Safe(buf, s.input, 0)
  }

  /** One record: refill, L, M, refill, D. */
  ghost function LmdStep(t: Tables, buf: seq<byte>, s: LmdState): (r: (Rec, LmdState))
    requires TablesOk(t) && LmdOk(buf, s)
    ensures LmdOk(buf, r.1) && RecInRange(r.0)
  {
    FlushSafe(buf, s.input);
    var l := ValueStep(t.l, L_P, 8, MAX_L, s.l, buf, FlushF(buf, s.input), 56);
    var m := ValueStep(t.m, M_P, 11, MAX_M, s.m, buf, l.input, 42);
    SafeWeaken(buf, m.input, 25, 0);
    FlushSafe(buf, m.input);
    var d := ValueStep(t.d, D_P, 15, MAX_D, s.d, buf, FlushF(buf, m.input), 56);
    SafeWeaken(buf, d.input, 33, 0);
    (Rec(l.value, m.value, d.value), LmdState(l.state, m.state, d.state, d.input))
  }

  /** The first n records of a stream: total on any payload, every field in range. */
  ghost function LmdRun(t: Tables, buf: seq<byte>, s: LmdState, n: nat): (r: seq<Rec>)
    requires TablesOk(t) && LmdOk(buf, s)
    ensures |r| == n && forall x <- r :: RecInRange(x)
    decreases n
  {
    if n == 0 then []
    else
      var (rec, next) := LmdStep(t, buf, s);
      [rec] + LmdRun(t, buf, next, n - 1)
  }

  // ---------------------------------------------------------------- a whole block

  ghost function Literals(h: Header, lit: seq<byte>, t: Tables): seq<byte>
    requires HeaderOk(h) && TablesOk(t) && InInit(lit, |lit|, h.literalBits).Some?
  {
    InitSafe(lit, |lit|, h.literalBits);
    LitRun(t.lit, lit, InInit(lit, |lit|, h.literalBits).value, h.literalState, h.nLiterals / 4)
  }

  ghost function LmdRecords(h: Header, lmd: seq<byte>, t: Tables): (r: seq<Rec>)
    requires HeaderOk(h) && TablesOk(t) && InInit(lmd, |lmd|, h.lmdBits).Some?
    ensures |r| == h.nMatches && forall x <- r :: RecInRange(x)
  {
    InitSafe(lmd, |lmd|, h.lmdBits);
    LmdRun(t, lmd, LmdState(h.lState, h.mState, h.dState, InInit(lmd, |lmd|, h.lmdBits).value), h.nMatches)
  }

  /** The output stream after the block, given its literal bytes (with what precedes them) and L/M/D bytes. */
  ghost function DecodePayload(h: Header, lit: seq<byte>, lmd: seq<byte>, prior: seq<byte>, t: Tables)
    : Option<seq<byte>>
    requires HeaderOk(h) && TablesOk(t)
  {
    if h.nLiterals % 4 != 0 || InInit(lit, |lit|, h.literalBits).None? || InInit(lmd, |lmd|, h.lmdBits).None? then None
    else
      var r := Replay(prior, Literals(h, lit, t), 0, LmdRecords(h, lmd, t));
      if r.Some? && |r.value| - |prior| == h.nRawBytes then r else None
  }

  /** What decoding the block whose payload is src[start..] appends to prior. */
  ghost function DecodeBlock(h: Header, src: seq<byte>, start: nat, prior: seq<byte>, t: Tables): Option<seq<byte>>
    requires HeaderOk(h) && TablesOk(t) && start <= |src|
  {
    if h.nLiteralPayloadBytes + h.nLMDPayloadBytes > |src| - start then None
    else DecodePayload(h, LiteralPart(h, src, start), LmdPart(h, src, start), prior, t)
  }

  /** The literal stream with everything in front of it, which its reader may touch. */
  function LiteralPart(h: Header, src: seq<byte>, start: nat): seq<byte>
    requires start + h.nLiteralPayloadBytes <= |src|
  {
    src[..start + h.nLiteralPayloadBytes]
  }

  function LmdPart(h: Header, src: seq<byte>, start: nat): seq<byte>
    requires start + h.nLiteralPayloadBytes + h.nLMDPayloadBytes <= |src|
  {
    src[start + h.nLiteralPayloadBytes..start + h.nLiteralPayloadBytes + h.nLMDPayloadBytes]
  }

  lemma BlockIsPayload(h: Header, src: seq<byte>, start: nat, prior: seq<byte>, t: Tables)
    requires HeaderOk(h) && TablesOk(t) && start + h.nLiteralPayloadBytes + h.nLMDPayloadBytes <= |src|
    ensures DecodeBlock(h, src, start, prior, t)
            == DecodePayload(h, LiteralPart(h, src, start), LmdPart(h, src, start), prior, t)
  {
  }

  /** A decoded block extends the stream by exactly its declared size, which its symbols can always produce. */
  lemma BlockExtendsPrior(h: Header, src: seq<byte>, start: nat, prior: seq<byte>, t: Tables)
    requires HeaderOk(h) && TablesOk(t) && start <= |src|
    ensures var r := DecodeBlock(h, src, start, prior, t);
            r.Some? ==>
              && prior <= r.value && |r.value| == |prior| + h.nRawBytes
              && h.nRawBytes <= h.nLiterals + h.nMatches * MAX_M
  {
    var r := DecodeBlock(h, src, start, prior, t);
    if r.Some? {
      var litEnd := start + h.nLiteralPayloadBytes;
      var lit, lmd := src[..litEnd], src[litEnd..litEnd + h.nLMDPayloadBytes];
      var lits, recs := Literals(h, lit, t), LmdRecords(h, lmd, t);
      ReplayLength(prior, lits, 0, recs);
      RawSizeBound(prior, lits, recs);
    }
  }
}
