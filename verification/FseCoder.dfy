/** FSE encode and decode steps on the bit stack, and the reversal of whole runs. */
module FseCoder {
  import opened Bits
  import opened FseTables
  import opened FseStream

  // ---------------------------------------------------------------- what a step writes

  /** A symbol and its extra bits: the value is base[sym] + resid with resid < 2^extra[sym]. */
  datatype Coded = Coded(sym: nat, resid: nat)

  /** The bits one encoder step pushes: extra bits first (low), then the state bits. */
  function StepBits(freqs: seq<nat>, p: nat, extra: nat, c: Coded, s: nat): seq<bool>
    requires Encodable(freqs, p, c.sym) && s < Pow2(p)
  {
    var r := StepOf(freqs, p, c.sym, s);
    ToBits(extra, c.resid) + ToBits(r.nbits, r.b)
  }

  lemma StepBitsBound(freqs: seq<nat>, p: nat, extra: nat, c: Coded, s: nat)
    requires Encodable(freqs, p, c.sym) && s < Pow2(p)
    ensures |StepBits(freqs, p, extra, c, s)| <= extra + p
    ensures StepOf(freqs, p, c.sym, s).next < Pow2(p)
  {
  }

  // ---------------------------------------------------------------- decode steps on the reader

  ghost predicate SafeTable(t: seq<DecEntry>, p: nat) {
    |t| == Pow2(p) && forall i :: 0 <= i < |t| ==> SafeEntry(t[i], p)
  }

  ghost predicate SafeValueTable(t: seq<ValueEntry>, p: nat, maxExtra: nat, maxValue: int) {
    |t| == Pow2(p) && forall i :: 0 <= i < |t| ==> SafeValueEntry(t[i], p, maxExtra, maxValue)
  }

  /** The value decoded, the next state, and the reader after it. */
  datatype Decoded = Decoded(value: int, state: int, input: InState)

  function FseDecodeF(t: seq<DecEntry>, state: nat, s: InState): Decoded
    requires state < |t|
  {
    var e := t[state];
    Decoded(e.sym, e.delta + PullValue(s, e.k), PullState(s, e.k))
  }

  function FseValueDecodeF(t: seq<ValueEntry>, state: nat, s: InState): Decoded
    requires state < |t|
  {
    var e := t[state];
    var b := PullValue(s, e.totalBits);
    Decoded(e.vbase + Low(b, e.valueBits), e.delta + Shr(b, e.valueBits), PullState(s, e.totalBits))
  }

  lemma SafeWeaken(buf: seq<byte>, s: InState, k: int, j: int)
    requires Safe(buf, s, k) && j <= k
    ensures Safe(buf, s, j)
  {
  }

  /** On any input whatever, a decode step stays inside its table. */
  lemma DecodeStaysInside(t: seq<DecEntry>, p: nat, state: nat, buf: seq<byte>, s: InState, k: int)
    requires SafeTable(t, p) && state < Pow2(p) && Safe(buf, s, k) && p <= k
    ensures var d := FseDecodeF(t, state, s);
            0 <= d.state < Pow2(p) && 0 <= d.value < 256 && Safe(buf, d.input, k - p)
  {
    var e := t[state];
    assert SafeEntry(e, p);
    PullSafe(buf, s, e.k, k);
    SafeWeaken(buf, PullState(s, e.k), k - e.k, k - p);
  }

  lemma ValueDecodeStaysInside(t: seq<ValueEntry>, p: nat, maxExtra: nat, maxValue: int, state: nat,
                               buf: seq<byte>, s: InState, k: int)
    requires SafeValueTable(t, p, maxExtra, maxValue) && state < Pow2(p)
    requires Safe(buf, s, k) && p + maxExtra <= k
    ensures var d := FseValueDecodeF(t, state, s);
            0 <= d.state < Pow2(p) && 0 <= d.value <= maxValue && Safe(buf, d.input, k - p - maxExtra)
  {
    var e := t[state];
    assert SafeValueEntry(e, p, maxExtra, maxValue);
    PullSafe(buf, s, e.totalBits, k);
    SafeWeaken(buf, PullState(s, e.totalBits), k - e.totalBits, k - p - maxExtra);
    CutBits(e.totalBits, e.valueBits, PullValue(s, e.totalBits));
  }

  /** A decode step undoes the encode step whose bits are on top of the stack. */
  lemma DecodeUndoes(freqs: seq<nat>, p: nat, sym: nat, s: nat, was: seq<DecEntry>,
                     buf: seq<byte>, input: InState, rest: seq<bool>)
    requires Encodable(freqs, p, sym) && s < Pow2(p) && |was| == Pow2(p)
    requires Live(buf, input) && p <= input.nbits
    requires View(buf, input) == rest + StepBits(freqs, p, 0, Coded(sym, 0), s)
    ensures var d := FseDecodeF(DecTable(freqs, p, was), StepOf(freqs, p, sym, s).next, input);
            && d.value == sym && d.state == s
            && Live(buf, d.input) && View(buf, d.input) == rest && d.input.nbits >= input.nbits - p
  {
    var r := StepOf(freqs, p, sym, s);
    StepInverts(freqs, p, sym, s, was);
    assert ToBits(0, 0) + ToBits(r.nbits, r.b) == ToBits(r.nbits, r.b);
    PullPushed(buf, input, rest, r.nbits, r.b);
  }

  lemma ValueDecodeUndoes(freqs: seq<nat>, p: nat, extra: seq<nat>, base: seq<int>, c: Coded, s: nat,
                          was: seq<ValueEntry>, buf: seq<byte>, input: InState, rest: seq<bool>)
    requires Encodable(freqs, p, c.sym) && s < Pow2(p) && |was| == Pow2(p)
    requires |extra| == |base| == |freqs| && c.resid < Pow2(extra[c.sym])
    requires Live(buf, input) && p + extra[c.sym] <= input.nbits
    requires View(buf, input) == rest + StepBits(freqs, p, extra[c.sym], c, s)
    ensures var d := FseValueDecodeF(ValueTable(freqs, p, extra, base, was),
                                     StepOf(freqs, p, c.sym, s).next, input);
            && d.value == base[c.sym] + c.resid && d.state == s
            && Live(buf, d.input) && View(buf, d.input) == rest
            && d.input.nbits >= input.nbits - p - extra[c.sym]
  {
    var r := StepOf(freqs, p, c.sym, s);
    var x := extra[c.sym];
    ValueStepInverts(freqs, p, extra, base, c.sym, s, was);
    var v := PullJoined(buf, input, rest, x, c.resid, r.nbits, r.b);
  }

  /** Two fields written one after the other come back as one pull. */
  lemma PullJoined(buf: seq<byte>, input: InState, rest: seq<bool>, x: nat, low: nat, n: nat, high: nat)
    returns (v: nat)
    requires Live(buf, input) && n + x <= input.nbits && low < Pow2(x) && high < Pow2(n)
    requires View(buf, input) == rest + (ToBits(x, low) + ToBits(n, high))
    ensures v == PullValue(input, n + x) && Low(v, x) == low && Shr(v, x) == high
    ensures Live(buf, PullState(input, n + x)) && View(buf, PullState(input, n + x)) == rest
    ensures PullState(input, n + x).nbits == input.nbits - (n + x)
  {
    v := JoinBits(x, low, n, high);
    PullPushed(buf, input, rest, n + x, v);
  }

  // ---------------------------------------------------------------- whole runs

  datatype Run = Run(bits: seq<bool>, state: nat)

  ghost predicate CodedOk(freqs: seq<nat>, p: nat, extra: seq<nat>, c: Coded) {
    |extra| == |freqs| && Encodable(freqs, p, c.sym) && c.resid < Pow2(extra[c.sym])
  }

  ghost predicate AllCoded(freqs: seq<nat>, p: nat, extra: seq<nat>, cs: seq<Coded>) {
    cs == [] || (CodedOk(freqs, p, extra, cs[0]) && AllCoded(freqs, p, extra, cs[1..]))
  }

  /** Encoding a list of values last to first from state s0. */
  ghost function EncodeRun(freqs: seq<nat>, p: nat, extra: seq<nat>, cs: seq<Coded>, s0: nat): (r: Run)
    requires s0 < Pow2(p) && AllCoded(freqs, p, extra, cs)
    ensures r.state < Pow2(p)
  {
    if cs == [] then Run([], s0)
    else
      var r := EncodeRun(freqs, p, extra, cs[1..], s0);
      Run(r.bits + StepBits(freqs, p, extra[cs[0].sym], cs[0], r.state), StepOf(freqs, p, cs[0].sym, r.state).next)
  }

  datatype ReadResult = ReadResult(values: seq<int>, state: nat, input: InState)

  /** Reading n values, with a refill before each; total on any input because every step is safe. */
  ghost function ReadRun(t: seq<ValueEntry>, p: nat, maxExtra: nat, maxValue: int,
                         buf: seq<byte>, s: InState, state: nat, n: nat): (r: ReadResult)
    requires SafeValueTable(t, p, maxExtra, maxValue) && p + maxExtra <= 56
    requires Safe(buf, s, 0) && state < Pow2(p)
    ensures |r.values| == n && r.state < Pow2(p) && Safe(buf, r.input, 0)
    ensures forall v <- r.values :: 0 <= v <= maxValue
    decreases n
  {
    if n == 0 then ReadResult([], state, s)
    else
      FlushSafe(buf, s);
      ValueDecodeStaysInside(t, p, maxExtra, maxValue, state, buf, FlushF(buf, s), 56);
      var d := FseValueDecodeF(t, state, FlushF(buf, s));
      SafeWeaken(buf, d.input, 56 - p - maxExtra, 0);
      var r := ReadRun(t, p, maxExtra, maxValue, buf, d.input, d.state, n - 1);
      ReadResult([d.value] + r.values, r.state, r.input)
  }

  function ValuesOf(base: seq<int>, cs: seq<Coded>): (v: seq<int>)
    ensures |v| == |cs|
  {
    if cs == [] then []
    else [(if cs[0].sym < |base| then base[cs[0].sym] else 0) + cs[0].resid] + ValuesOf(base, cs[1..])
  }

  /** The decoder table for freqs inverts every encoder step. */
  ghost predicate Inverts(t: seq<ValueEntry>, freqs: seq<nat>, p: nat, extra: seq<nat>, base: seq<int>) {
    && |t| == Pow2(p) && |extra| == |base| == |freqs| && Sum(freqs) <= Pow2(p)
    && exists was: seq<ValueEntry> :: |was| == Pow2(p) && t == ValueTable(freqs, p, extra, base, was)
  }

  /** After a refill, a step is undone and the bits below are left. */
  lemma StepUndone(t: seq<ValueEntry>, freqs: seq<nat>, p: nat, extra: seq<nat>, base: seq<int>, c: Coded, s: nat,
                   buf: seq<byte>, input: InState, rest: seq<bool>)
    requires Inverts(t, freqs, p, extra, base) && CodedOk(freqs, p, extra, c) && s < Pow2(p)
    requires Live(buf, input) && p + extra[c.sym] <= 56 <= |rest|
    requires View(buf, input) == rest + StepBits(freqs, p, extra[c.sym], c, s)
    ensures var d := FseValueDecodeF(t, StepOf(freqs, p, c.sym, s).next, FlushF(buf, input));
            && d.value == base[c.sym] + c.resid && d.state == s
            && Live(buf, d.input) && View(buf, d.input) == rest
  {
    var was: seq<ValueEntry> :| |was| == Pow2(p) && t == ValueTable(freqs, p, extra, base, was);
    FlushKeepsView(buf, input);
    ValueDecodeUndoes(freqs, p, extra, base, c, s, was, buf, FlushF(buf, input), rest);
  }

  /** A run of n > 0 values is one decode step and a run of n - 1. */
  lemma ReadRunStep(t: seq<ValueEntry>, p: nat, maxExtra: nat, maxValue: int,
                    buf: seq<byte>, s: InState, state: nat, n: nat, d: Decoded)
    requires SafeValueTable(t, p, maxExtra, maxValue) && p + maxExtra <= 56 && n > 0
    requires Safe(buf, s, 0) && state < Pow2(p) && d == FseValueDecodeF(t, state, FlushF(buf, s))
    ensures 0 <= d.state < Pow2(p) && Safe(buf, d.input, 0)
    ensures var r := ReadRun(t, p, maxExtra, maxValue, buf, d.input, d.state, n - 1);
            ReadRun(t, p, maxExtra, maxValue, buf, s, state, n) == ReadResult([d.value] + r.values, r.state, r.input)
  {
    FlushSafe(buf, s);
    ValueDecodeStaysInside(t, p, maxExtra, maxValue, state, buf, FlushF(buf, s), 56);
    SafeWeaken(buf, d.input, 56 - p - maxExtra, 0);
  }

  lemma ValuesOfStep(base: seq<int>, cs: seq<Coded>, v: int)
    requires cs != [] && cs[0].sym < |base| && v == base[cs[0].sym] + cs[0].resid
    ensures ValuesOf(base, cs) == [v] + ValuesOf(base, cs[1..])
  {
  }

  /** Undoing the last step of a run: the value on top, and the bits of the steps before it left below. */
  lemma TopStep(t: seq<ValueEntry>, freqs: seq<nat>, p: nat, extra: seq<nat>, base: seq<int>, c: Coded, r: Run,
                buf: seq<byte>, s: InState, below: seq<bool>) returns (d: Decoded)
    requires Inverts(t, freqs, p, extra, base) && CodedOk(freqs, p, extra, c) && r.state < Pow2(p)
    requires Live(buf, s) && |below| >= 56 && p + extra[c.sym] <= 56
    requires View(buf, s) == below + (r.bits + StepBits(freqs, p, extra[c.sym], c, r.state))
    ensures FlushF(buf, s).nbits >= 0 && d == FseValueDecodeF(t, StepOf(freqs, p, c.sym, r.state).next, FlushF(buf, s))
    ensures d.value == base[c.sym] + c.resid && d.state == r.state
    ensures Live(buf, d.input) && View(buf, d.input) == below + r.bits
  {
    SeqAssoc(below, r.bits, StepBits(freqs, p, extra[c.sym], c, r.state));
    StepUndone(t, freqs, p, extra, base, c, r.state, buf, s, below + r.bits);
    FlushKeepsView(buf, s);
    d := FseValueDecodeF(t, StepOf(freqs, p, c.sym, r.state).next, FlushF(buf, s));
  }

  /** Reading from here gives these values, ends in state s0 and leaves the bits below. */
  ghost predicate RunYields(t: seq<ValueEntry>, p: nat, maxExtra: nat, maxValue: int, buf: seq<byte>, s: InState,
                            state: nat, values: seq<int>, s0: nat, below: seq<bool>)
  {
    && SafeValueTable(t, p, maxExtra, maxValue) && p + maxExtra <= 56 && Safe(buf, s, 0) && state < Pow2(p)
    && forall v: seq<int> :: v == values ==>
         var r := ReadRun(t, p, maxExtra, maxValue, buf, s, state, |v|);
         r.values == v && r.state == s0 && Live(buf, r.input) && View(buf, r.input) == below
  }

  lemma StepYields(t: seq<ValueEntry>, p: nat, maxExtra: nat, maxValue: int, buf: seq<byte>, s: InState, state: nat,
                   d: Decoded, later: seq<int>, s0: nat, below: seq<bool>)
    requires SafeValueTable(t, p, maxExtra, maxValue) && p + maxExtra <= 56 && Safe(buf, s, 0) && state < Pow2(p)
    requires d == FseValueDecodeF(t, state, FlushF(buf, s)) && d.state >= 0
    requires RunYields(t, p, maxExtra, maxValue, buf, d.input, d.state, later, s0, below)
    ensures RunYields(t, p, maxExtra, maxValue, buf, s, state, [d.value] + later, s0, below)
  {
    ReadRunStep(t, p, maxExtra, maxValue, buf, s, state, 1 + |later|, d);
    var r := ReadRun(t, p, maxExtra, maxValue, buf, d.input, d.state, |later|);
    assert r.values == later;
  }

  lemma {:induction false} RunYieldsValues(t: seq<ValueEntry>, freqs: seq<nat>, p: nat, extra: seq<nat>,
                                           base: seq<int>, maxExtra: nat, maxValue: int, cs: seq<Coded>, s0: nat,
                                           buf: seq<byte>, s: InState, below: seq<bool>)
    requires Inverts(t, freqs, p, extra, base) && SafeValueTable(t, p, maxExtra, maxValue) && p + maxExtra <= 56
    requires forall x <- extra :: x <= maxExtra
    requires s0 < Pow2(p) && AllCoded(freqs, p, extra, cs)
    requires Live(buf, s) && |below| >= 56
    requires View(buf, s) == below + EncodeRun(freqs, p, extra, cs, s0).bits
    ensures RunYields(t, p, maxExtra, maxValue, buf, s, EncodeRun(freqs, p, extra, cs, s0).state,
                      ValuesOf(base, cs), s0, below)
  {
    LiveIsSafe(buf, s);
    if cs == [] {
      assert below + [] == below;
    } else {
      var c := cs[0];
      var r := EncodeRun(freqs, p, extra, cs[1..], s0);
      assert extra[c.sym] in extra;
      var d := TopStep(t, freqs, p, extra, base, c, r, buf, s, below);
      RunYieldsValues(t, freqs, p, extra, base, maxExtra, maxValue, cs[1..], s0, buf, d.input, below);
      ValuesOfStep(base, cs, d.value);
      StepYields(t, p, maxExtra, maxValue, buf, s, StepOf(freqs, p, c.sym, r.state).next, d,
                 ValuesOf(base, cs[1..]), s0, below);
    }
  }

  /**
   * Reversal of a whole run: for every frequency table whose sum is at most 2^p, every list of values with
   * non-zero frequencies and every starting state, the reader started on the encoder's final state returns
   * the list and the starting state, and leaves exactly the bits that lay below.
   */
  lemma RunReversal(t: seq<ValueEntry>, freqs: seq<nat>, p: nat, extra: seq<nat>, base: seq<int>, maxExtra: nat,
                    maxValue: int, cs: seq<Coded>, s0: nat, buf: seq<byte>, s: InState, below: seq<bool>)
    requires Inverts(t, freqs, p, extra, base) && SafeValueTable(t, p, maxExtra, maxValue) && p + maxExtra <= 56
    requires forall x <- extra :: x <= maxExtra
    requires s0 < Pow2(p) && AllCoded(freqs, p, extra, cs)
    requires Live(buf, s) && |below| >= 56
    requires View(buf, s) == below + EncodeRun(freqs, p, extra, cs, s0).bits
    ensures Safe(buf, s, 0)
    ensures var r := ReadRun(t, p, maxExtra, maxValue, buf, s, EncodeRun(freqs, p, extra, cs, s0).state, |cs|);
            && r.values == ValuesOf(base, cs) && r.state == s0
            && Live(buf, r.input) && View(buf, r.input) == below
  {
    RunYieldsValues(t, freqs, p, extra, base, maxExtra, maxValue, cs, s0, buf, s, below);
  }

  // ---------------------------------------------------------------- the steps as the code runs them

  method FseEncode(state: nat, table: array<EncEntry>, sym: nat, out: OutStream,
                   ghost freqs: seq<nat>, ghost p: nat) returns (next: nat)
    requires Encodable(freqs, p, sym) && state < Pow2(p) && table[..] == EncTable(freqs, p)
    requires out.Valid() && out.accumNBits + p <= 64
    modifies out`accum, out`accumNBits
    ensures out.Valid() && next == StepOf(freqs, p, sym, state).next
    ensures out.accumNBits == old(out.accumNBits) + StepOf(freqs, p, sym, state).nbits
    ensures out.Bits() == old(out.Bits()) + ToBits(StepOf(freqs, p, sym, state).nbits, StepOf(freqs, p, sym, state).b)
  {
    ghost var r := StepOf(freqs, p, sym, state);
    FreqAtMostSum(freqs, sym);
    ShiftBounds(freqs[sym], p);
    EncodeThenDecode(freqs[sym], p, Offset(freqs, sym), state);
    assert table[..][sym] == EncSlot(freqs[sym], Pow2(p), Offset(freqs, sym));
    var e := table[sym];
    var nbits, delta;
    if state >= e.s0 {
      nbits, delta := e.k, e.delta0;
    } else {
      nbits, delta := e.k - 1, e.delta1;
    }
    assert r.nbits == nbits && r.b == Low(state, nbits);
    out.Push(nbits, Low(state, nbits));
    next := delta + ShrInt(state, nbits);
  }

  method FseDecode(state: nat, table: array<DecEntry>, input: InStream, ghost ptr: int)
    returns (sym: nat, next: int)
    requires state < table.Length
    modifies input
    ensures Decoded(sym, next, input.State(ptr)) == FseDecodeF(table[..], state, old(input.State(ptr)))
  {
    var e := table[state];
    var b := input.Pull(e.k, ptr);
    next := e.delta + b;
    sym := e.sym;
  }

  method FseValueDecode(state: nat, table: array<ValueEntry>, input: InStream, ghost ptr: int)
    returns (value: int, next: int)
    requires state < table.Length
    modifies input
    ensures Decoded(value, next, input.State(ptr)) == FseValueDecodeF(table[..], state, old(input.State(ptr)))
  {
    var e := table[state];
    var b := input.Pull(e.totalBits, ptr);
    next := e.delta + Shr(b, e.valueBits);
    value := e.vbase + Low(b, e.valueBits);
  }
}
