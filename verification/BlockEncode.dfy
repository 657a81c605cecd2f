/** encodeBlock: from a list of matches to a block header and its two payload streams. */
module BlockEncode {
  import opened Bits
  import opened FseTables
  import opened FseStream
  import opened FseCoder
  import opened FseNormalize
  import opened Lmd
  import opened Records
  import opened BlockSpec
  import opened BlockReversal
  import opened BlockRoundTrip

  // ---------------------------------------------------------------- records and literals

  /** Appends a run of L literals and its match, split into parts of at most 315 literals. */
  method AppendRun(recs0: seq<Rec>, L0: nat, M: nat, D: nat) returns (recs: seq<Rec>)
    ensures recs == recs0 + SplitRun(L0, M, D)
  {
    var L: nat := L0;
    recs := recs0;
    while L > MAX_L
      invariant recs + SplitRun(L, M, D) == recs0 + SplitRun(L0, M, D)
    {
      SeqAssoc(recs, [Rec(MAX_L, 0, D)], SplitRun(L - MAX_L, M, D));
      recs := recs + [Rec(MAX_L, 0, D)];
      L := L - MAX_L;
    }
    recs := recs + [Rec(L, M, D)];
  }

  /** The matches in rest are still to come; what is collected goes in front of them. */
  ghost predicate Collected(src: seq<byte>, srcEnd: nat, lits: seq<byte>, recs: seq<Rec>, litPos: nat,
                            rest: seq<Match>, allLits: seq<byte>, allRecs: seq<Rec>)
  {
    forall ms: seq<Match> :: ms == rest ==> CollectedOver(src, srcEnd, lits, recs, litPos, ms, allLits, allRecs)
  }

  ghost predicate CollectedOver(src: seq<byte>, srcEnd: nat, lits: seq<byte>, recs: seq<Rec>, litPos: nat,
                                rest: seq<Match>, allLits: seq<byte>, allRecs: seq<Rec>)
  {
    && ValidMatches(src, litPos, rest, srcEnd)
    && lits + Uncovered(src, litPos, rest, srcEnd) == allLits && recs + RawRecords(litPos, rest, srcEnd) == allRecs
  }

  lemma CollectLiterals(src: seq<byte>, litPos: nat, ms: seq<Match>, srcEnd: nat, lits: seq<byte>)
    requires ValidMatches(src, litPos, ms, srcEnd) && ms != []
    ensures litPos <= ms[0].pos <= |src| && ms[0].L == ms[0].pos - litPos
    ensures ValidMatches(src, ms[0].pos + ms[0].M, ms[1..], srcEnd)
    ensures lits + Uncovered(src, litPos, ms, srcEnd)
            == (lits + src[litPos..ms[0].pos]) + Uncovered(src, ms[0].pos + ms[0].M, ms[1..], srcEnd)
  {
    ValidMatchesEnd(src, ms[0].pos + ms[0].M, ms[1..], srcEnd);
    SeqAssoc(lits, src[litPos..ms[0].pos], Uncovered(src, ms[0].pos + ms[0].M, ms[1..], srcEnd));
  }

  lemma CollectMatch(litPos: nat, ms: seq<Match>, srcEnd: nat, recs: seq<Rec>)
    requires ms != [] && ms[0].L >= 0
    ensures recs + RawRecords(litPos, ms, srcEnd)
            == (recs + SplitRun(ms[0].L, ms[0].M, ms[0].D)) + RawRecords(ms[0].pos + ms[0].M, ms[1..], srcEnd)
  {
    SeqAssoc(recs, SplitRun(ms[0].L, ms[0].M, ms[0].D), RawRecords(ms[0].pos + ms[0].M, ms[1..], srcEnd));
  }

  lemma CollectedNext(src: seq<byte>, srcEnd: nat, lits: seq<byte>, recs: seq<Rec>, litPos: nat,
                      rest: seq<Match>, allLits: seq<byte>, allRecs: seq<Rec>)
    requires Collected(src, srcEnd, lits, recs, litPos, rest, allLits, allRecs) && rest != []
    ensures litPos <= rest[0].pos <= |src| && rest[0].L == rest[0].pos - litPos
    ensures Collected(src, srcEnd, lits + src[litPos..rest[0].pos], recs + SplitRun(rest[0].L, rest[0].M, rest[0].D),
                      rest[0].pos + rest[0].M, rest[1..], allLits, allRecs)
  {
    assert CollectedOver(src, srcEnd, lits, recs, litPos, rest, allLits, allRecs);
    CollectLiterals(src, litPos, rest, srcEnd, lits);
    CollectMatch(litPos, rest, srcEnd, recs);
  }

  lemma NothingCollected(src: seq<byte>, srcEnd: nat, litPos: nat, ms: seq<Match>)
    requires ValidMatches(src, litPos, ms, srcEnd)
    ensures Collected(src, srcEnd, [], [], litPos, ms[0..], Uncovered(src, litPos, ms, srcEnd),
                      RawRecords(litPos, ms, srcEnd))
  {
    assert ms[0..] == ms;
    var lits, recs := Uncovered(src, litPos, ms, srcEnd), RawRecords(litPos, ms, srcEnd);
    assert [] + lits == lits && [] + recs == recs;
  }

  /** The literals of src[srcStart..srcEnd] and its records, distances written out. */
  method CollectRecords(src: seq<byte>, srcStart: nat, srcEnd: nat, ms: seq<Match>)
    returns (literals: seq<byte>, recs: seq<Rec>)
    requires ValidMatches(src, srcStart, ms, srcEnd)
    ensures literals == Uncovered(src, srcStart, ms, srcEnd)
    ensures recs == RawRecords(srcStart, ms, srcEnd)
  {
    ghost var allLits, allRecs := Uncovered(src, srcStart, ms, srcEnd), RawRecords(srcStart, ms, srcEnd);
    literals, recs := [], [];
    var litPos: nat := srcStart;
    NothingCollected(src, srcEnd, srcStart, ms);
    for i := 0 to |ms|
      invariant Collected(src, srcEnd, literals, recs, litPos, ms[i..], allLits, allRecs)
    {
      var m := ms[i];
      CollectedNext(src, srcEnd, literals, recs, litPos, ms[i..], allLits, allRecs);
      assert ms[i..][1..] == ms[i + 1..];
      literals := literals + src[litPos..m.pos];
      recs := AppendRun(recs, m.L, m.M, m.D);
      litPos := m.pos + m.M;
    }
    literals, recs := CollectTrailing(src, srcEnd, literals, recs, litPos, ms[|ms|..], allLits, allRecs);
  }

  /** The literals after the last match become records of their own. */
  method CollectTrailing(src: seq<byte>, srcEnd: nat, lits: seq<byte>, recs0: seq<Rec>, litPos: nat,
                         ghost rest: seq<Match>, ghost allLits: seq<byte>, ghost allRecs: seq<Rec>)
    returns (literals: seq<byte>, recs: seq<Rec>)
    requires Collected(src, srcEnd, lits, recs0, litPos, rest, allLits, allRecs) && rest == []
    ensures literals == allLits && recs == allRecs
  {
    assert CollectedOver(src, srcEnd, lits, recs0, litPos, rest, allLits, allRecs);
    var trailing: nat := srcEnd - litPos;
    literals, recs := lits + src[litPos..srcEnd], recs0;
    if trailing > 0 {
      recs := AppendRun(recs, trailing, 0, 1);
    }
  }

  /** Writes 0 for a distance equal to the one before. */
  method ReuseDistances(raw: seq<Rec>) returns (recs: seq<Rec>)
    ensures recs == ReuseD(raw, 0)
  {
    recs := [];
    var lastD := 0;
    assert raw[0..] == raw;
    for i := 0 to |raw|
      invariant recs + ReuseD(raw[i..], lastD) == ReuseD(raw, 0)
    {
      assert raw[i..][1..] == raw[i + 1..];
      var r := raw[i];
      if r.D == lastD {
        SeqAssoc(recs, [r.(D := 0)], ReuseD(raw[i + 1..], r.D));
        recs := recs + [r.(D := 0)];
      } else {
        SeqAssoc(recs, [r], ReuseD(raw[i + 1..], r.D));
        recs := recs + [r];
        lastD := r.D;
      }
    }
  }

  /** Zero literals up to a multiple of four. */
  method PadLiterals(lits: seq<byte>) returns (padded: seq<byte>, ghost pad: seq<byte>)
    ensures padded == lits + pad && |pad| <= 3 && |padded| % 4 == 0
    ensures forall b <- pad :: b == 0
  {
    padded, pad := lits, [];
    ghost var q, r := |lits| / 4, |lits| % 4;
    while |padded| % 4 != 0
      invariant padded == lits + pad && (forall b <- pad :: b == 0)
      invariant |padded| == 4 * q + (r + |pad|) && (|pad| == 0 || r + |pad| <= 4) && r < 4
      invariant |pad| > 0 ==> r > 0
      decreases 4 - |pad|
    {
      RemainderOfFour(q, r + |pad|);
      padded, pad := padded + [0], pad + [0];
    }
  }

  lemma RemainderOfFour(q: nat, e: nat)
    requires (4 * q + e) % 4 != 0
    ensures e % 4 != 0
  {
    DivMod(e, 4);
    if e % 4 == 0 { DivModUnique(4 * q + e, 4, q + e / 4, 0); }
  }

  /** Each record covers at least one byte, so a block has no more records than raw bytes. */
  lemma {:induction false} RecordCount(src: seq<byte>, litPos: nat, ms: seq<Match>, srcEnd: nat)
    requires ValidMatches(src, litPos, ms, srcEnd)
    ensures litPos <= srcEnd && |RawRecords(litPos, ms, srcEnd)| <= srcEnd - litPos
    ensures |Uncovered(src, litPos, ms, srcEnd)| <= srcEnd - litPos
    decreases |ms|
  {
    ValidMatchesEnd(src, litPos, ms, srcEnd);
    if ms == [] {
      SplitRunShape(srcEnd - litPos, 0, 1);
    } else {
      SplitRunShape(ms[0].L, ms[0].M, ms[0].D);
      RecordCount(src, ms[0].pos + ms[0].M, ms[1..], srcEnd);
    }
  }

  // ---------------------------------------------------------------- frequency tables

  /** A histogram of symbols: entry v says how often v occurs, and no symbol lies outside. */
  ghost predicate Counts(counts: seq<nat>, syms: seq<nat>) {
    && Sum(counts) == |syms| && (forall s <- syms :: s < |counts|)
    && forall v :: 0 <= v < |counts| ==> counts[v] == multiset(syms)[v]
  }

  /** The symbol of each value. */
  function Symbols(values: seq<nat>, base: seq<int>): seq<nat>
    requires base != []
  {
    seq(|values|, i requires 0 <= i < |values| => Symbol(values[i], base))
  }

  /** The symbols of a list of values and how often each occurs. */
  method CountSymbols(values: seq<nat>, base: seq<int>, nsym: nat) returns (syms: seq<nat>, counts: array<nat>)
    requires nsym == |base| > 0
    ensures fresh(counts) && counts.Length == nsym && Counts(counts[..], syms)
    ensures syms == Symbols(values, base)
  {
    counts := new nat[nsym](_ => 0);
    syms := [];
    assert counts[..] == seq(nsym, _ => 0);
    SumZero(nsym);
    for i := 0 to |values|
      invariant fresh(counts) && counts.Length == nsym && |syms| == i && Counts(counts[..], syms)
      invariant forall j :: 0 <= j < i ==> syms[j] == Symbol(values[j], base)
    {
      var s := LmdSymbol(values[i], base, nsym);
      CountOne(counts, syms, s);
      syms := syms + [s];
    }
  }

  /** counts[s]++. */
  method CountOne(counts: array<nat>, ghost syms: seq<nat>, s: nat)
    requires s < counts.Length && Counts(counts[..], syms)
    modifies counts
    ensures Counts(counts[..], syms + [s])
  {
    ghost var was := counts[..];
    SumUpdate(was, s, was[s] + 1);
    assert multiset(syms + [s]) == multiset(syms) + multiset{s};
    counts[s] := counts[s] + 1;
    assert counts[..] == was[s := was[s] + 1];
  }

  method CountLiterals(literals: seq<byte>) returns (counts: array<nat>)
    ensures fresh(counts) && counts.Length == 256 && Counts(counts[..], literals)
  {
    counts := new nat[256](_ => 0);
    assert counts[..] == seq(256, _ => 0);
    SumZero(256);
    for i := 0 to |literals|
      invariant fresh(counts) && counts.Length == 256 && Counts(counts[..], literals[..i])
    {
      CountOne(counts, literals[..i], literals[i]);
      assert literals[..i + 1] == literals[..i] + [literals[i]];
    }
    assert literals[..|literals|] == literals;
  }

  /** Makes an empty histogram count symbol 0 once. */
  method EnsureNonZero(counts: array<nat>)
    requires counts.Length > 0
    modifies counts
    ensures counts[..] == if old(Sum(counts[..])) > 0 then old(counts[..]) else old(counts[..])[0 := 1]
    ensures Sum(counts[..]) == Max(old(Sum(counts[..])), 1)
  {
    for i := 0 to counts.Length
      invariant counts[..] == old(counts[..])
      invariant forall j :: 0 <= j < i ==> counts[j] == 0
    {
      if counts[i] > 0 {
        EntryAtMostSum(counts[..], i);
        return;
      }
    }
    ghost var was := counts[..];
    AllZeroSum(was);
    SumUpdate(was, 0, 1);
    counts[0] := counts[0] + 1;
    assert counts[..] == was[0 := 1];
  }

  lemma {:induction false} DistinctAtMostLength(counts: seq<nat>)
    ensures Distinct(counts) <= |counts|
  {
    if counts == [] {
    } else {
      DistinctAtMostLength(counts[..|counts| - 1]);
    }
  }

  /** How often each of n symbols occurs; symbol 0 once when there are none. */
  function Histogram(syms: seq<nat>, n: nat): (counts: seq<nat>)
    ensures |counts| == n
  {
    seq(n, v requires 0 <= v < n => if syms == [] then (if v == 0 then 1 else 0) else multiset(syms)[v])
  }

  /** freqs is the table of 2^p states that these symbols, of n, call for. */
  ghost predicate TableOf(syms: seq<nat>, n: nat, p: nat, freqs: seq<nat>) {
    IsNormalized(Histogram(syms, n), p, freqs)
  }

  /** A frequency table whose entries sum to the number of states and that can encode every counted symbol. */
  method FrequencyTable(counts: array<nat>, nstates: nat, ghost p: nat, ghost syms: seq<nat>)
    returns (freqs: array<nat>)
    requires 0 < counts.Length <= nstates == Pow2(p) && p <= 15
    requires Counts(counts[..], syms) && |syms| < STEP_ONE
    modifies counts
    ensures fresh(freqs) && freqs.Length == counts.Length && Sum(freqs[..]) == nstates
    ensures TableOf(syms, counts.Length, p, freqs[..])
    ensures forall s <- syms :: Encodable(freqs[..], p, s)
    ensures forall i :: 0 <= i < freqs.Length ==> freqs[i] <= nstates
  {
    ghost var was := counts[..];
    EnsureNonZero(counts);
    IsHistogram(was, syms, counts[..]);
    DistinctAtMostLength(counts[..]);
    var ok;
    ok, freqs := NormalizeFreq(counts[..], nstates, p);
  }

  lemma IsHistogram(was: seq<nat>, syms: seq<nat>, counts: seq<nat>)
    requires was != [] && Counts(was, syms) && counts == if Sum(was) > 0 then was else was[0 := 1]
    ensures counts == Histogram(syms, |was|)
  {
  }

  // ---------------------------------------------------------------- the literal stream

  /** Channels 3 down to j of one group. */
  ghost function PushDown(freqs: seq<nat>, e: LitEnc, b: seq<nat>, j: nat): (r: LitEnc)
    requires StatesOk(e.st) && j <= 4 == |b| && forall i :: 0 <= i < 4 ==> Encodable(freqs, LIT_P, b[i])
    ensures StatesOk(r.st)
    decreases 4 - j
  {
    if j == 4 then e else PushLit(freqs, PushDown(freqs, e, b, j + 1), j, b[j])
  }

  lemma PushDownIsGroup(freqs: seq<nat>, e: LitEnc, b: seq<nat>)
    requires StatesOk(e.st) && 4 == |b| && forall i :: 0 <= i < 4 ==> Encodable(freqs, LIT_P, b[i])
    ensures PushDown(freqs, e, b, 0) == PushGroup(freqs, e, b[0], b[1], b[2], b[3])
  {
    assert PushDown(freqs, e, b, 2) == PushLit(freqs, PushLit(freqs, e, 3, b[3]), 2, b[2]);
  }

  /** One literal on channel ch. */
  method EncodeLiteral(table: array<EncEntry>, st: seq<nat>, ch: nat, b: nat, out: OutStream, ghost freqs: seq<nat>)
    returns (next: seq<nat>)
    requires Encodable(freqs, LIT_P, b) && table[..] == EncTable(freqs, LIT_P) && StatesOk(st) && ch < 4
    requires out.Valid() && out.accumNBits < 8
    modifies out
    ensures out.Valid() && out.accumNBits < 8
    ensures LitEnc(out.Bits(), next) == PushLit(freqs, LitEnc(old(out.Bits()), st), ch, b)
  {
    ghost var was := out.Bits();
    var s := FseEncode(st[ch], table, b, out, freqs, LIT_P);
    LiteralBits(freqs, st[ch], b);
    next := st[ch := s];
    out.Flush();
  }

  lemma LiteralBits(freqs: seq<nat>, s: nat, b: nat)
    requires Encodable(freqs, LIT_P, b) && s < Pow2(LIT_P)
    ensures var r := StepOf(freqs, LIT_P, b, s);
            StepBits(freqs, LIT_P, 0, Coded(b, 0), s) == ToBits(r.nbits, r.b)
  {
    var r := StepOf(freqs, LIT_P, b, s);
    assert ToBits(0, 0) + ToBits(r.nbits, r.b) == ToBits(r.nbits, r.b);
  }

  /** Encoding these literals gives these bits and states. */
  ghost predicate LitsWritten(freqs: seq<nat>, lits: seq<byte>, bits: seq<bool>, st: seq<nat>) {
    LitsEncodable(freqs, lits) && forall x: seq<byte> :: x == lits ==> LitEnc(bits, st) == EncodeLits(freqs, x)
  }

  /** The literals from i on, in whole groups. */
  lemma SuffixEncodable(freqs: seq<nat>, literals: seq<byte>, i: nat, left: nat)
    requires LitsEncodable(freqs, literals) && i + 4 * left == |literals|
    ensures LitsEncodable(freqs, literals[i..]) && |literals[i..]| == 4 * left
  {
    assert forall b <- literals[i..] :: b in literals;
    assert (4 * left) % 4 == 0;
  }

  lemma GroupSlices(literals: seq<byte>, i: nat)
    requires i + 4 <= |literals|
    ensures literals[i..i + 4] == literals[i..][..4] && literals[i..][4..] == literals[i + 4..]
  {
  }

  /** The group before the literals already encoded: left groups lie from i + 4 on. */
  method EncodePrevious(literals: seq<byte>, i: nat, table: array<EncEntry>, st0: seq<nat>, out: OutStream,
                        ghost freqs: seq<nat>, ghost left: nat)
    returns (st: seq<nat>)
    requires LitsEncodable(freqs, literals) && table[..] == EncTable(freqs, LIT_P)
    requires i + 4 * (left + 1) == |literals| && LitsWritten(freqs, literals[i + 4..], out.Bits(), st0)
    requires out.Valid() && out.accumNBits < 8
    modifies out
    ensures out.Valid() && out.accumNBits < 8 && LitsWritten(freqs, literals[i..], out.Bits(), st)
  {
    SuffixEncodable(freqs, literals, i, left + 1);
    GroupSlices(literals, i);
    st := EncodeGroup(literals[i..i + 4], table, st0, out, freqs, literals[i..]);
  }

  /** The literals in groups of four, last group first; in a group channel 3 comes first. */
  method EncodeLiterals4Interleaved(literals: seq<byte>, table: array<EncEntry>, ghost freqs: seq<nat>)
    returns (payload: seq<byte>, bits: int, states: seq<nat>)
    requires LitsEncodable(freqs, literals) && table[..] == EncTable(freqs, LIT_P)
    ensures Spells(payload, EncodeLits(freqs, literals).bits, bits)
    ensures states == EncodeLits(freqs, literals).st
  {
    var out := new OutStream();
    states := [0, 0, 0, 0];
    var i: int := |literals| - 4;
    ghost var n, left := Groups(|literals|), 0;
    NoneWritten(freqs, literals);
    while i >= 0
      invariant i + 4 + 4 * left == |literals| == 4 * n && left <= n
      invariant fresh(out) && out.Valid() && out.accumNBits < 8
      invariant LitsWritten(freqs, literals[i + 4..], out.Bits(), states)
      decreases i
    {
      states := EncodePrevious(literals, i, table, states, out, freqs, left);
      i, left := i - 4, left + 1;
    }
    AllWritten(freqs, literals, i + 4, out.Bits(), states);
    payload, bits := FinishStream(out);
  }

  ghost function Groups(n: nat): (k: nat)
    requires n % 4 == 0
    ensures n == 4 * k
  {
    n / 4
  }

  lemma NoneWritten(freqs: seq<nat>, literals: seq<byte>)
    requires LitsEncodable(freqs, literals)
    ensures LitsWritten(freqs, literals[|literals|..], [], [0, 0, 0, 0])
  {
  }

  lemma AllWritten(freqs: seq<nat>, literals: seq<byte>, at: nat, bits: seq<bool>, st: seq<nat>)
    requires LitsEncodable(freqs, literals) && at == 0 && LitsWritten(freqs, literals[at..], bits, st)
    ensures LitEnc(bits, st) == EncodeLits(freqs, literals)
  {
    assert literals[at..] == literals;
  }

  /** One group of four, in front of the literals already encoded. */
  method EncodeGroup(b: seq<byte>, table: array<EncEntry>, st0: seq<nat>, out: OutStream,
                     ghost freqs: seq<nat>, ghost rest: seq<byte>)
    returns (st: seq<nat>)
    requires LitsEncodable(freqs, rest) && table[..] == EncTable(freqs, LIT_P)
    requires |rest| >= 4 && b == rest[..4]
    requires out.Valid() && out.accumNBits < 8 && LitsWritten(freqs, rest[4..], out.Bits(), st0)
    modifies out
    ensures out.Valid() && out.accumNBits < 8 && LitsWritten(freqs, rest, out.Bits(), st)
  {
    GroupEncodable(freqs, rest);
    ghost var e := EncodeLits(freqs, rest[4..]);
    st := st0;
    var j := 3;
    while j >= 0
      invariant -1 <= j <= 3 && out.Valid() && out.accumNBits < 8
      invariant StatesOk(st) && LitEnc(out.Bits(), st) == PushDown(freqs, e, b, j + 1)
    {
      st := EncodeLiteral(table, st, j, b[j], out, freqs);
      j := j - 1;
    }
    PushDownIsGroup(freqs, e, b);
  }

  // ---------------------------------------------------------------- the L, M, D stream

  /** One value: extra bits, then the FSE step, then a flush. */
  method EncodeValue(v: nat, sym: nat, state: nat, table: array<EncEntry>, base: seq<int>, extra: seq<nat>,
                     out: OutStream, ghost c: Chan)
    returns (next: nat)
    requires CanPush(c, v) && base == c.base && extra == c.extra && sym == Symbol(v, base)
    requires table[..] == EncTable(c.freqs, c.p) && state < Pow2(c.p) && c.p + c.maxExtra <= 56
    requires out.Valid() && out.accumNBits < 8
    modifies out
    ensures out.Valid() && out.accumNBits < 8
    ensures IsValuePush(c, ValEnc(old(out.Bits()), state), v, ValEnc(out.Bits(), next))
  {
    ghost var was := out.Bits();
    SymbolUnique(v, base, extra, c.max);
    var resid: nat := v - base[sym];
    out.Push(extra[sym], resid);
    next := FseEncode(state, table, sym, out, c.freqs, c.p);
    PushedValue(c, was, state, v, sym, resid, out.Bits());
    out.Flush();
  }

  /** Extra bits and then state bits are one value pushed. */
  lemma PushedValue(c: Chan, was: seq<bool>, state: nat, v: nat, sym: nat, resid: nat, bits: seq<bool>)
    requires CanPush(c, v) && state < Pow2(c.p) && sym == Symbol(v, c.base) && resid == v - c.base[sym]
    requires var r := StepOf(c.freqs, c.p, sym, state);
             bits == was + ToBits(c.extra[sym], resid) + ToBits(r.nbits, r.b)
    ensures IsValuePush(c, ValEnc(was, state), v, ValEnc(bits, StepOf(c.freqs, c.p, sym, state).next))
  {
    var r := StepOf(c.freqs, c.p, sym, state);
    SeqAssoc(was, ToBits(c.extra[sym], resid), ToBits(r.nbits, r.b));
  }

  /** One record: D, M, L. */
  method EncodeRecord(r: Rec, lSym: nat, mSym: nat, dSym: nat, l0: nat, m0: nat, d0: nat,
                      lTable: array<EncEntry>, mTable: array<EncEntry>, dTable: array<EncEntry>,
                      out: OutStream, ghost f: Freqs)
    returns (l: nat, m: nat, d: nat)
    requires RecEncodable(f, r)
    requires lSym == Symbol(r.L, L_BASE) && mSym == Symbol(r.M, M_BASE) && dSym == Symbol(r.D, D_BASE)
    requires lTable[..] == EncTable(f.l, L_P) && mTable[..] == EncTable(f.m, M_P) && dTable[..] == EncTable(f.d, D_P)
    requires l0 < Pow2(L_P) && m0 < Pow2(M_P) && d0 < Pow2(D_P) && out.Valid() && out.accumNBits < 8
    modifies out
    ensures out.Valid() && out.accumNBits < 8
    ensures LmdEnc(out.Bits(), l, m, d) == PushRec(f, LmdEnc(old(out.Bits()), l0, m0, d0), r)
  {
    d := EncodeValue(r.D, dSym, d0, dTable, D_BASE, D_EXTRA, out, DChan(f.d));
    m := EncodeValue(r.M, mSym, m0, mTable, M_BASE, M_EXTRA, out, MChan(f.m));
    l := EncodeValue(r.L, lSym, l0, lTable, L_BASE, L_EXTRA, out, LChan(f.l));
  }

  ghost predicate SymbolsOf(recs: seq<Rec>, lSyms: seq<nat>, mSyms: seq<nat>, dSyms: seq<nat>) {
    && |lSyms| == |mSyms| == |dSyms| == |recs|
    && forall i :: 0 <= i < |recs| ==>
         && lSyms[i] == Symbol(recs[i].L, L_BASE) && mSyms[i] == Symbol(recs[i].M, M_BASE)
         && dSyms[i] == Symbol(recs[i].D, D_BASE)
  }

  /** Encoding these records gives e. */
  ghost predicate RecsWritten(f: Freqs, recs: seq<Rec>, e: LmdEnc) {
    AllEncodable(f, recs) && forall x: seq<Rec> :: x == recs ==> e == EncodeRecs(f, x)
  }

  /** One more record at the front. */
  lemma LastRecord(f: Freqs, recs: seq<Rec>, i: nat, e: LmdEnc)
    requires AllEncodable(f, recs) && i < |recs| && RecsWritten(f, recs[i + 1..], e)
    ensures RecEncodable(f, recs[i]) && LmdEncOk(e)
    ensures RecsWritten(f, recs[i..], PushRec(f, e, recs[i]))
  {
    var rest := recs[i..];
    assert forall r <- rest :: r in recs;
    RestEncodable(f, rest);
    assert rest[1..] == recs[i + 1..];
    assert e == EncodeRecs(f, recs[i + 1..]);
  }

  /** The backward loop over the records, all states starting at 0. */
  method EncodeRecords(recs: seq<Rec>, lSyms: seq<nat>, mSyms: seq<nat>, dSyms: seq<nat>,
                       lTable: array<EncEntry>, mTable: array<EncEntry>, dTable: array<EncEntry>,
                       out: OutStream, ghost f: Freqs)
    returns (l: nat, m: nat, d: nat)
    requires AllEncodable(f, recs) && SymbolsOf(recs, lSyms, mSyms, dSyms)
    requires Sum(f.l) <= Pow2(L_P) && Sum(f.m) <= Pow2(M_P) && Sum(f.d) <= Pow2(D_P)
    requires lTable[..] == EncTable(f.l, L_P) && mTable[..] == EncTable(f.m, M_P) && dTable[..] == EncTable(f.d, D_P)
    requires out.Valid() && out.Bits() == [] && out.accumNBits < 8
    modifies out
    ensures out.Valid() && out.accumNBits < 8 && RecsWritten(f, recs, LmdEnc(out.Bits(), l, m, d))
  {
    l, m, d := 0, 0, 0;
    var i: int := |recs| - 1;
    NoRecsWritten(f, recs);
    while i >= 0
      invariant -1 <= i < |recs| && out.Valid() && out.accumNBits < 8
      invariant RecsWritten(f, recs[i + 1..], LmdEnc(out.Bits(), l, m, d))
      decreases i
    {
      LastRecord(f, recs, i, LmdEnc(out.Bits(), l, m, d));
      l, m, d := EncodeRecord(recs[i], lSyms[i], mSyms[i], dSyms[i], l, m, d, lTable, mTable, dTable, out, f);
      i := i - 1;
    }
    assert recs[0..] == recs;
  }

  lemma NoRecsWritten(f: Freqs, recs: seq<Rec>)
    ensures RecsWritten(f, recs[|recs|..], LmdEnc([], 0, 0, 0))
  {
  }

  /** All records, last to first, after eight bytes of padding. */
  method EncodeLmd(recs: seq<Rec>, lSyms: seq<nat>, mSyms: seq<nat>, dSyms: seq<nat>,
                   lTable: array<EncEntry>, mTable: array<EncEntry>, dTable: array<EncEntry>, ghost f: Freqs)
    returns (payload: seq<byte>, bits: int, l: nat, m: nat, d: nat)
    requires AllEncodable(f, recs) && SymbolsOf(recs, lSyms, mSyms, dSyms)
    requires Sum(f.l) <= Pow2(L_P) && Sum(f.m) <= Pow2(M_P) && Sum(f.d) <= Pow2(D_P)
    requires lTable[..] == EncTable(f.l, L_P) && mTable[..] == EncTable(f.m, M_P) && dTable[..] == EncTable(f.d, D_P)
    ensures |payload| >= LMD_PAD_BYTES && payload[..LMD_PAD_BYTES] == seq(LMD_PAD_BYTES, _ => 0)
    ensures var e := EncodeRecs(f, recs);
            Spells(payload[LMD_PAD_BYTES..], e.bits, bits) && l == e.l && m == e.m && d == e.d
  {
    var out := new OutStream();
    l, m, d := EncodeRecords(recs, lSyms, mSyms, dSyms, lTable, mTable, dTable, out, f);
    WrittenRecs(f, recs, LmdEnc(out.Bits(), l, m, d));
    var body;
    body, bits := FinishStream(out);
    payload := PadFront(body);
  }

  lemma WrittenRecs(f: Freqs, recs: seq<Rec>, e: LmdEnc)
    requires RecsWritten(f, recs, e)
    ensures AllEncodable(f, recs) && e == EncodeRecs(f, recs)
  {
  }

  /** Eight zero bytes in front of a stream. */
  method PadFront(body: seq<byte>) returns (payload: seq<byte>)
    ensures |payload| >= LMD_PAD_BYTES && payload[..LMD_PAD_BYTES] == seq(LMD_PAD_BYTES, _ => 0)
    ensures payload[LMD_PAD_BYTES..] == body
  {
    payload := seq(LMD_PAD_BYTES, _ => 0) + body;
  }

  // ---------------------------------------------------------------- the whole block

  /** The three parallel lists the encoder keeps. */
  function Ls(recs: seq<Rec>): (v: seq<nat>)
    ensures |v| == |recs| && forall i :: 0 <= i < |recs| ==> v[i] == recs[i].L
  {
    seq(|recs|, i requires 0 <= i < |recs| => recs[i].L)
  }

  function Ms(recs: seq<Rec>): (v: seq<nat>)
    ensures |v| == |recs| && forall i :: 0 <= i < |recs| ==> v[i] == recs[i].M
  {
    seq(|recs|, i requires 0 <= i < |recs| => recs[i].M)
  }

  function Ds(recs: seq<Rec>): (v: seq<nat>)
    ensures |v| == |recs| && forall i :: 0 <= i < |recs| ==> v[i] == recs[i].D
  {
    seq(|recs|, i requires 0 <= i < |recs| => recs[i].D)
  }

  /** Tables that give states to the symbols of every record can encode every record. */
  lemma TablesCover(f: Freqs, recs: seq<Rec>, lSyms: seq<nat>, mSyms: seq<nat>, dSyms: seq<nat>)
    requires |f.l| == 20 && |f.m| == 20 && |f.d| == 64
    requires Sum(f.l) <= Pow2(L_P) && Sum(f.m) <= Pow2(M_P) && Sum(f.d) <= Pow2(D_P)
    requires SymbolsOf(recs, lSyms, mSyms, dSyms) && forall r <- recs :: RecInRange(r)
    requires forall s <- lSyms :: Encodable(f.l, L_P, s)
    requires forall s <- mSyms :: Encodable(f.m, M_P, s)
    requires forall s <- dSyms :: Encodable(f.d, D_P, s)
    ensures AllEncodable(f, recs)
  {
    ChansOk(f.l, f.m, f.d);
    forall r <- recs
      ensures RecEncodable(f, r)
    {
      var i :| 0 <= i < |recs| && recs[i] == r;
      assert RecInRange(r) && lSyms[i] in lSyms && mSyms[i] in mSyms && dSyms[i] in dSyms;
    }
  }

  /** Each frequency is one the packed header can write. */
  ghost predicate FreqsInRange(h: Header) {
    && (forall i :: 0 <= i < |h.lFreq| ==> h.lFreq[i] <= 64) && (forall i :: 0 <= i < |h.mFreq| ==> h.mFreq[i] <= 64)
    && (forall i :: 0 <= i < |h.dFreq| ==> h.dFreq[i] <= 256)
    && (forall i :: 0 <= i < |h.literalFreq| ==> h.literalFreq[i] <= 1024)
  }

  /** h, lit and lmd are a block for src[srcStart..srcEnd] cut into these matches. */
  ghost predicate BlockFor(src: seq<byte>, srcStart: nat, ms: seq<Match>, srcEnd: nat,
                           h: Header, lit: seq<byte>, lmd: seq<byte>, pad: seq<byte>)
  {
    && ValidMatches(src, srcStart, ms, srcEnd) && h.nRawBytes == srcEnd - srcStart && |pad| <= 3
    && EncodesBlock(h, lit, lmd, Uncovered(src, srcStart, ms, srcEnd) + pad, BlockRecords(srcStart, ms, srcEnd))
    && BlockTables(h, Uncovered(src, srcStart, ms, srcEnd) + pad, BlockRecords(srcStart, ms, srcEnd))
  }

  /** The four tables of a header are those its records and literals call for. */
  ghost predicate BlockTables(h: Header, lits: seq<byte>, recs: seq<Rec>) {
    RecordTablesOf(Freqs(h.lFreq, h.mFreq, h.dFreq), recs) && TableOf(lits, 256, LIT_P, h.literalFreq)
  }

  ghost predicate RecordTablesOf(f: Freqs, recs: seq<Rec>) {
    && TableOf(Symbols(Ls(recs), L_BASE), 20, L_P, f.l) && TableOf(Symbols(Ms(recs), M_BASE), 20, M_P, f.m)
    && TableOf(Symbols(Ds(recs), D_BASE), 64, D_P, f.d)
  }

  /** Three tables of the right size whose entries sum to exactly their state counts. */
  ghost predicate FreqsOk(f: Freqs) {
    && |f.l| == 20 && |f.m| == 20 && |f.d| == 64
    && Sum(f.l) == Pow2(L_P) && Sum(f.m) == Pow2(M_P) && Sum(f.d) == Pow2(D_P)
    && (forall i :: 0 <= i < 20 ==> f.l[i] <= 64) && (forall i :: 0 <= i < 20 ==> f.m[i] <= 64)
    && (forall i :: 0 <= i < 64 ==> f.d[i] <= 256)
  }

  /** The symbols of one list of values and their frequency table. */
  method ValueTable(values: seq<nat>, base: seq<int>, nstates: nat, ghost p: nat)
    returns (syms: seq<nat>, freqs: seq<nat>)
    requires 0 < |base| <= nstates == Pow2(p) && p <= 15 && |values| < STEP_ONE
    ensures syms == Symbols(values, base) && TableOf(syms, |base|, p, freqs)
    ensures |freqs| == |base| && Sum(freqs) == nstates && forall i :: 0 <= i < |freqs| ==> freqs[i] <= nstates
    ensures forall s <- syms :: Encodable(freqs, p, s)
  {
    var counts;
    syms, counts := CountSymbols(values, base, |base|);
    var table := FrequencyTable(counts, nstates, p, syms);
    freqs := table[..];
  }

  /** Symbols and frequency tables of the three lists. */
  method RecordTables(recs: seq<Rec>) returns (f: Freqs, lSyms: seq<nat>, mSyms: seq<nat>, dSyms: seq<nat>)
    requires |recs| < STEP_ONE && forall r <- recs :: RecInRange(r)
    ensures FreqsOk(f) && AllEncodable(f, recs) && SymbolsOf(recs, lSyms, mSyms, dSyms) && RecordTablesOf(f, recs)
  {
    Pow2Values();
    var lFreqs, mFreqs, dFreqs;
    lSyms, lFreqs := ValueTable(Ls(recs), L_BASE, 64, L_P);
    mSyms, mFreqs := ValueTable(Ms(recs), M_BASE, 64, M_P);
    dSyms, dFreqs := ValueTable(Ds(recs), D_BASE, 256, D_P);
    f := Freqs(lFreqs, mFreqs, dFreqs);
    TablesCover(f, recs, lSyms, mSyms, dSyms);
  }

  method EncodeRecordStream(recs: seq<Rec>) returns (f: Freqs, payload: seq<byte>, bits: int, l: nat, m: nat, d: nat)
    requires |recs| < STEP_ONE && forall r <- recs :: RecInRange(r)
    ensures FreqsOk(f) && AllEncodable(f, recs) && RecordTablesOf(f, recs)
    ensures |payload| >= LMD_PAD_BYTES && payload[..LMD_PAD_BYTES] == seq(LMD_PAD_BYTES, _ => 0)
    ensures var e := EncodeRecs(f, recs);
            Spells(payload[LMD_PAD_BYTES..], e.bits, bits) && l == e.l && m == e.m && d == e.d
  {
    var lSyms, mSyms, dSyms;
    f, lSyms, mSyms, dSyms := RecordTables(recs);
    Pow2Values();
    var lTable := InitEncoderTable(f.l, 64, L_P);
    var mTable := InitEncoderTable(f.m, 64, M_P);
    var dTable := InitEncoderTable(f.d, 256, D_P);
    payload, bits, l, m, d := EncodeLmd(recs, lSyms, mSyms, dSyms, lTable, mTable, dTable, f);
  }

  method EncodeLiteralStream(literals: seq<byte>)
    returns (freqs: seq<nat>, payload: seq<byte>, bits: int, states: seq<nat>)
    requires |literals| < STEP_ONE && |literals| % 4 == 0
    ensures |freqs| == 256 && LitsEncodable(freqs, literals) && Sum(freqs) == Pow2(LIT_P)
    ensures TableOf(literals, 256, LIT_P, freqs) && forall i :: 0 <= i < 256 ==> freqs[i] <= 1024
    ensures Spells(payload, EncodeLits(freqs, literals).bits, bits)
    ensures states == EncodeLits(freqs, literals).st
  {
    Pow2Values();
    var counts := CountLiterals(literals);
    var table := FrequencyTable(counts, 1024, LIT_P, literals);
    freqs := table[..];
    var enc := InitEncoderTable(freqs, 1024, LIT_P);
    payload, bits, states := EncodeLiterals4Interleaved(literals, enc, freqs);
  }

  /**
   * Encodes src[srcStart..srcEnd] with its matches. The result is a block for exactly those bytes: its records
   * are the rewritten match list, its literals the uncovered bytes and up to three zeros.
   */
  method EncodeBlock(src: seq<byte>, srcStart: nat, srcEnd: nat, ms: seq<Match>)
    returns (h: Header, lit: seq<byte>, lmd: seq<byte>, ghost pad: seq<byte>)
    requires ValidMatches(src, srcStart, ms, srcEnd) && srcEnd - srcStart < STEP_ONE - 3
    ensures BlockFor(src, srcStart, ms, srcEnd, h, lit, lmd, pad) && FreqsInRange(h)
    ensures forall b <- pad :: b == 0
    ensures lmd[..LMD_PAD_BYTES] == seq(LMD_PAD_BYTES, _ => 0)
  {
    RecordCount(src, srcStart, ms, srcEnd);
    BlockRecordsReplay(src, srcStart, ms, srcEnd, []);
    var literals, raw := CollectRecords(src, srcStart, srcEnd, ms);
    var recs := ReuseDistances(raw);
    literals, pad := PadLiterals(literals);
    h, lit, lmd := EncodeStreams(literals, recs, srcEnd - srcStart);
  }

  /** Entropy-codes the literals and records and fills in the header. */
  method EncodeStreams(literals: seq<byte>, recs: seq<Rec>, nRaw: nat)
    returns (h: Header, lit: seq<byte>, lmd: seq<byte>)
    requires |literals| < STEP_ONE && |literals| % 4 == 0
    requires |recs| < STEP_ONE && forall r <- recs :: RecInRange(r)
    ensures EncodesBlock(h, lit, lmd, literals, recs) && h.nRawBytes == nRaw && FreqsInRange(h)
    ensures BlockTables(h, literals, recs)
    ensures lmd[..LMD_PAD_BYTES] == seq(LMD_PAD_BYTES, _ => 0)
  {
    var f, lmdBits, l, m, d;
    f, lmd, lmdBits, l, m, d := EncodeRecordStream(recs);
    var litFreq, litBits, states;
    litFreq, lit, litBits, states := EncodeLiteralStream(literals);
    h := Header(nRaw, |literals|, |recs|, |lit|, |lmd|, litBits, states, lmdBits, l, m, d,
                f.l, f.m, f.d, litFreq);
    HalvesMakeBlock(h, lit, lmd, literals, recs);
  }

  lemma HalvesMakeBlock(h: Header, lit: seq<byte>, lmd: seq<byte>, lits: seq<byte>, recs: seq<Rec>)
    requires EncodesLiterals(h, lit, lits) && EncodesRecords(h, lmd, recs) && FreqsOk(FreqsOf(h))
    requires |h.literalFreq| == 256 && Sum(h.literalFreq) == Pow2(LIT_P)
    requires forall i :: 0 <= i < 256 ==> h.literalFreq[i] <= 1024
    ensures EncodesBlock(h, lit, lmd, lits, recs) && FreqsInRange(h)
  {
  }

  /**
   * Block round trip: for every source, range and valid match list, the block the encoder makes, standing
   * anywhere after at least 7 bytes of stream and decoded with any earlier block's tables left over, turns
   * src[..srcStart] into src[..srcEnd].
   */
  lemma EncodedBlockDecodes(src: seq<byte>, srcStart: nat, ms: seq<Match>, srcEnd: nat, h: Header, lit: seq<byte>,
                       lmd: seq<byte>, pad: seq<byte>, was: Tables, stream: seq<byte>, start: nat)
    requires BlockFor(src, srcStart, ms, srcEnd, h, lit, lmd, pad) && TablesOk(was)
    requires 7 <= start && PayloadAt(stream, start, lit, lmd)
    ensures srcStart <= srcEnd <= |src| && TablesOk(BuildTables(h, was))
    ensures DecodeBlock(h, stream, start, src[..srcStart], BuildTables(h, was)) == Some(src[..srcEnd])
  {
    BlockRecordsReplay(src, srcStart, ms, srcEnd, pad);
    var lits, recs := Uncovered(src, srcStart, ms, srcEnd) + pad, BlockRecords(srcStart, ms, srcEnd);
    DecodesToReplay(h, lit, lmd, lits, recs, was, stream, start, src[..srcStart]);
  }
}
