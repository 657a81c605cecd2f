/** In which order a block's symbols lie in its two bit streams, stated on the bits alone. */
module BitOrder {
  import opened Bits
  import opened FseTables
  import opened FseStream
  import opened FseCoder
  import opened Lmd
  import opened BlockSpec
  import opened BlockReversal

  /** The last n bits of a sequence are the number v, and rest is what they stand on. */
  ghost predicate Pops(bits: seq<bool>, n: int, v: nat, rest: seq<bool>) {
    0 <= n && v < Pow2(n) && bits == rest + ToBits(n, v)
  }

  /** A literal: the entry of its state names it and says how many bits lead to the next state. */
  ghost predicate LiteralPops(t: seq<DecEntry>, state: nat, bits: seq<bool>, literal: int, next: nat, rest: seq<bool>)
  {
    && state < |t| && literal == t[state].sym
    && exists v: nat :: (Pops(bits, t[state].k, v, rest) && next == t[state].delta + v)
  }

  /** A value: the bits that lead to the next state lie on top of those to add to its base. */
  ghost predicate ValuePops(t: seq<ValueEntry>, state: nat, bits: seq<bool>, value: int, next: int, rest: seq<bool>)
  {
    && state < |t|
    && exists under :: (StatePops(t[state], bits, next, under) && ResidualPops(t[state], under, value, rest))
  }

  /** How many of an entry's bits lead to the next state. */
  function StateBits(e: ValueEntry): int {
    e.totalBits - e.valueBits
  }

  ghost predicate StatePops(e: ValueEntry, bits: seq<bool>, next: int, under: seq<bool>) {
    exists v: nat :: (Pops(bits, StateBits(e), v, under) && next == e.delta + v)
  }

  ghost predicate ResidualPops(e: ValueEntry, bits: seq<bool>, value: int, rest: seq<bool>) {
    exists v: nat :: (Pops(bits, e.valueBits, v, rest) && value == e.vbase + v)
  }

  lemma {:induction false} LiteralStep(t: seq<DecEntry>, buf: seq<byte>, s: InState, state: nat, k: nat, d: Decoded)
    requires SafeTable(t, LIT_P) && state < Pow2(LIT_P) && Live(buf, s) && LIT_P <= k <= s.nbits
    requires IsDecode(t, state, s, d)
    ensures Live(buf, d.input) && k - LIT_P <= d.input.nbits && d.state >= 0
    ensures LiteralPops(t, state, View(buf, s), d.value, d.state, View(buf, d.input))
  {
    assert SafeEntry(t[state], LIT_P) && d == FseDecodeF(t, state, s);
    PullKeepsView(buf, s, t[state].k);
    assert Pops(View(buf, s), t[state].k, PullValue(s, t[state].k), View(buf, d.input));
  }

  /** A group of four literals is read off the top of the bits: that of channel 0 first, that of channel 3 last. */
  lemma {:induction false} GroupOrder(t: seq<DecEntry>, buf: seq<byte>, s: InState, st: seq<nat>)
    returns (b1: seq<bool>, b2: seq<bool>, b3: seq<bool>)
    requires SafeTable(t, LIT_P) && StatesOk(st) && Live(buf, s) && |View(buf, s)| >= 56
    ensures Safe(buf, s, 0)
    ensures var g := LitGroup(t, buf, s, st);
      && Live(buf, g.input)
      && LiteralPops(t, st[0], View(buf, s), g.bytes[0], g.states[0], b1)
      && LiteralPops(t, st[1], b1, g.bytes[1], g.states[1], b2)
      && LiteralPops(t, st[2], b2, g.bytes[2], g.states[2], b3)
      && LiteralPops(t, st[3], b3, g.bytes[3], g.states[3], View(buf, g.input))
  {
    LiveIsSafe(buf, s);
    var d0, d1, d2, d3 := GroupDecodes(t, buf, s, st);
    FlushKeepsView(buf, s);
    LiteralStep(t, buf, FlushF(buf, s), st[0], 56, d0);
    LiteralStep(t, buf, d0.input, st[1], 46, d1);
    LiteralStep(t, buf, d1.input, st[2], 36, d2);
    LiteralStep(t, buf, d2.input, st[3], 26, d3);
    b1, b2, b3 := View(buf, d0.input), View(buf, d1.input), View(buf, d2.input);
  }

  lemma {:induction false} ValueStepPops(t: seq<ValueEntry>, p: nat, maxExtra: nat, maxValue: int, buf: seq<byte>,
                                         s: InState, state: nat, d: Decoded)
    requires SafeValueTable(t, p, maxExtra, maxValue) && state < Pow2(p) && Live(buf, s) && p + maxExtra <= s.nbits
    requires IsValueDecode(t, state, s, d)
    ensures state < |t| && Live(buf, d.input) && d.input.nbits == s.nbits - t[state].totalBits
    ensures |View(buf, d.input)| == |View(buf, s)| - t[state].totalBits
    ensures ValuePops(t, state, View(buf, s), d.value, d.state, View(buf, d.input))
  {
    assert SafeValueEntry(t[state], p, maxExtra, maxValue) && d == FseValueDecodeF(t, state, s);
    var e := t[state];
    PullKeepsView(buf, s, e.totalBits);
    var v, rest := PullValue(s, e.totalBits), View(buf, d.input);
    CutBits(e.totalBits, e.valueBits, v);
    var low, high := Low(v, e.valueBits), Shr(v, e.valueBits);
    var under := rest + ToBits(e.valueBits, low);
    SeqAssoc(rest, ToBits(e.valueBits, low), ToBits(e.totalBits - e.valueBits, high));
    assert Pops(View(buf, s), StateBits(e), high, under) && Pops(under, e.valueBits, low, rest);
    assert StatePops(e, View(buf, s), d.state, under) && ResidualPops(e, under, d.value, rest);
  }

  /** A record is read off the top of the bits: first L, then M, then D. */
  lemma {:induction false} RecordOrder(t: Tables, buf: seq<byte>, s: LmdState)
    returns (b1: seq<bool>, b2: seq<bool>)
    requires TablesOk(t) && LmdOk(buf, s) && Live(buf, s.input)
    requires |View(buf, s.input)| >= 56 + t.l[s.l].totalBits + t.m[s.m].totalBits
    ensures var (r, next) := LmdStep(t, buf, s);
      && Live(buf, next.input)
      && ValuePops(t.l, s.l, View(buf, s.input), r.L, next.l, b1)
      && ValuePops(t.m, s.m, b1, r.M, next.m, b2)
      && ValuePops(t.d, s.d, b2, r.D, next.d, View(buf, next.input))
  {
    var l, m, d := RecDecodes(t, buf, s);
    assert SafeValueEntry(t.l[s.l], L_P, 8, MAX_L) && SafeValueEntry(t.m[s.m], M_P, 11, MAX_M);
    FlushKeepsView(buf, s.input);
    ValueStepPops(t.l, L_P, 8, MAX_L, buf, FlushF(buf, s.input), s.l, l);
    ValueStepPops(t.m, M_P, 11, MAX_M, buf, l.input, s.m, m);
    FlushKeepsView(buf, m.input);
    ValueStepPops(t.d, D_P, 15, MAX_D, buf, FlushF(buf, m.input), s.d, d);
    b1, b2 := View(buf, l.input), View(buf, m.input);
  }
}
