/** What the block encoder writes, and why the block decoder reads it back. */
module BlockReversal {
  import opened Bits
  import opened FseTables
  import opened FseStream
  import opened FseCoder
  import opened Lmd
  import opened Records
  import opened BlockSpec
  import opened BlockDecode

  // ---------------------------------------------------------------- four interleaved literal channels

  /** The bits written and the four states reached. */
  datatype LitEnc = LitEnc(bits: seq<bool>, st: seq<nat>)

  ghost predicate LitsEncodable(freqs: seq<nat>, lits: seq<byte>) {
    Sum(freqs) <= Pow2(LIT_P) && |lits| % 4 == 0 && forall b <- lits :: Encodable(freqs, LIT_P, b)
  }

  lemma GroupEncodable(freqs: seq<nat>, lits: seq<byte>)
    requires LitsEncodable(freqs, lits) && lits != []
    ensures |lits| >= 4 && LitsEncodable(freqs, lits[4..])
    ensures forall i :: 0 <= i < 4 ==> Encodable(freqs, LIT_P, lits[i])
  {
    assert forall b <- lits[4..] :: b in lits;
    assert forall i :: 0 <= i < 4 ==> lits[i] in lits;
  }

  /** Encodes one literal on channel ch. */
  ghost function PushLit(freqs: seq<nat>, e: LitEnc, ch: nat, b: nat): (r: LitEnc)
    requires Encodable(freqs, LIT_P, b) && StatesOk(e.st) && ch < 4
    ensures StatesOk(r.st)
  {
    LitEnc(e.bits + StepBits(freqs, LIT_P, 0, Coded(b, 0), e.st[ch]),
           e.st[ch := StepOf(freqs, LIT_P, b, e.st[ch]).next])
  }

  /** One group of four, channel 3 first. */
  ghost function PushGroup(freqs: seq<nat>, e: LitEnc, b0: nat, b1: nat, b2: nat, b3: nat): (r: LitEnc)
    requires StatesOk(e.st)
    requires Encodable(freqs, LIT_P, b0) && Encodable(freqs, LIT_P, b1)
    requires Encodable(freqs, LIT_P, b2) && Encodable(freqs, LIT_P, b3)
    ensures StatesOk(r.st)
  {
    PushLit(freqs, PushLit(freqs, PushLit(freqs, PushLit(freqs, e, 3, b3), 2, b2), 1, b1), 0, b0)
  }

  const NO_LITS := LitEnc([], [0, 0, 0, 0])

  /** Encoding the literals in groups of four from the last group to the first, all states starting at 0. */
  ghost function EncodeLits(freqs: seq<nat>, lits: seq<byte>): (r: LitEnc)
    requires LitsEncodable(freqs, lits)
    ensures StatesOk(r.st)
  {
    if lits == [] then NO_LITS
    else
      GroupEncodable(freqs, lits);
      PushGroup(freqs, EncodeLits(freqs, lits[4..]), lits[0], lits[1], lits[2], lits[3])
  }

  /** e2 is e with literal b pushed on channel ch. */
  ghost predicate IsPush(freqs: seq<nat>, e: LitEnc, ch: nat, b: nat, e2: LitEnc) {
    && Encodable(freqs, LIT_P, b) && StatesOk(e.st) && StatesOk(e2.st) && ch < 4
    && forall x: LitEnc :: x == e ==> e2 == PushLit(freqs, x, ch, b)
  }

  /** d is one decode step from the given state. */
  ghost predicate IsDecode(t: seq<DecEntry>, state: nat, s: InState, d: Decoded) {
    state < |t| && forall x: InState :: x == s ==> d == FseDecodeF(t, state, x)
  }

  ghost predicate InvertsLits(t: seq<DecEntry>, freqs: seq<nat>) {
    && SafeTable(t, LIT_P) && Sum(freqs) <= Pow2(LIT_P)
    && exists was: seq<DecEntry> :: |was| == Pow2(LIT_P) && t == DecTable(freqs, LIT_P, was)
  }

  /** One literal read back: the bits below it and the state it was pushed on are left. */
  lemma PopLit(t: seq<DecEntry>, freqs: seq<nat>, e: LitEnc, ch: nat, b: nat, e2: LitEnc,
               buf: seq<byte>, input: InState, d: Decoded, below: seq<bool>, k: nat)
    requires InvertsLits(t, freqs) && IsPush(freqs, e, ch, b, e2) && IsDecode(t, e2.st[ch], input, d)
    requires Live(buf, input) && LIT_P <= k <= input.nbits && View(buf, input) == below + e2.bits
    ensures d.value == b && d.state == e.st[ch]
    ensures Live(buf, d.input) && View(buf, d.input) == below + e.bits && k - LIT_P <= d.input.nbits
  {
    assert e2 == PushLit(freqs, e, ch, b) && d == FseDecodeF(t, e2.st[ch], input);
    var was: seq<DecEntry> :| |was| == Pow2(LIT_P) && t == DecTable(freqs, LIT_P, was);
    SeqAssoc(below, e.bits, StepBits(freqs, LIT_P, 0, Coded(b, 0), e.st[ch]));
    DecodeUndoes(freqs, LIT_P, b, e.st[ch], was, buf, input, below + e.bits);
  }

  lemma PushKeepsOthers(freqs: seq<nat>, e: LitEnc, ch: nat, b: nat, e2: LitEnc)
    requires IsPush(freqs, e, ch, b, e2)
    ensures forall c: nat :: c < 4 && c != ch ==> e2.st[c] == e.st[c]
  {
    assert e2 == PushLit(freqs, e, ch, b);
  }

  /** The four pushes of a group. */
  lemma GroupPushes(freqs: seq<nat>, e: LitEnc, b0: nat, b1: nat, b2: nat, b3: nat)
    returns (e0: LitEnc, e1: LitEnc, e2: LitEnc, e3: LitEnc)
    requires StatesOk(e.st)
    requires Encodable(freqs, LIT_P, b0) && Encodable(freqs, LIT_P, b1)
    requires Encodable(freqs, LIT_P, b2) && Encodable(freqs, LIT_P, b3)
    ensures IsPush(freqs, e, 3, b3, e3) && IsPush(freqs, e3, 2, b2, e2)
    ensures IsPush(freqs, e2, 1, b1, e1) && IsPush(freqs, e1, 0, b0, e0)
    ensures PushGroup(freqs, e, b0, b1, b2, b3) == e0
  {
    e3 := PushLit(freqs, e, 3, b3);
    e2 := PushLit(freqs, e3, 2, b2);
    e1 := PushLit(freqs, e2, 1, b1);
    e0 := PushLit(freqs, e1, 0, b0);
  }

  /** The four decode steps of a group. */
  lemma GroupDecodes(t: seq<DecEntry>, buf: seq<byte>, input: InState, st: seq<nat>)
    returns (d0: Decoded, d1: Decoded, d2: Decoded, d3: Decoded)
    requires SafeTable(t, LIT_P) && Safe(buf, input, 0) && StatesOk(st)
    ensures IsDecode(t, st[0], FlushF(buf, input), d0) && IsDecode(t, st[1], d0.input, d1)
    ensures IsDecode(t, st[2], d1.input, d2) && IsDecode(t, st[3], d2.input, d3)
    ensures d0.state >= 0 && d1.state >= 0 && d2.state >= 0 && d3.state >= 0
    ensures LitGroup(t, buf, input, st) == Group([d0.value, d1.value, d2.value, d3.value],
                                                 [d0.state, d1.state, d2.state, d3.state], d3.input)
  {
    FlushSafe(buf, input);
    d0 := LitStep(t, st[0], buf, FlushF(buf, input), 56);
    d1 := LitStep(t, st[1], buf, d0.input, 46);
    d2 := LitStep(t, st[2], buf, d1.input, 36);
    d3 := LitStep(t, st[3], buf, d2.input, 26);
  }

  /** Four pops undo four pushes. */
  lemma PopFour(t: seq<DecEntry>, freqs: seq<nat>, b: seq<nat>, e: LitEnc, e3: LitEnc, e2: LitEnc, e1: LitEnc,
                e0: LitEnc, buf: seq<byte>, s: InState, below: seq<bool>,
                d0: Decoded, d1: Decoded, d2: Decoded, d3: Decoded)
    requires InvertsLits(t, freqs) && |b| == 4
    requires IsPush(freqs, e, 3, b[3], e3) && IsPush(freqs, e3, 2, b[2], e2)
    requires IsPush(freqs, e2, 1, b[1], e1) && IsPush(freqs, e1, 0, b[0], e0)
    requires IsDecode(t, e0.st[0], s, d0) && IsDecode(t, e0.st[1], d0.input, d1)
    requires IsDecode(t, e0.st[2], d1.input, d2) && IsDecode(t, e0.st[3], d2.input, d3)
    requires Live(buf, s) && 56 <= s.nbits && View(buf, s) == below + e0.bits
    ensures [d0.value, d1.value, d2.value, d3.value] == [b[0], b[1], b[2], b[3]]
    ensures [d0.state, d1.state, d2.state, d3.state] == [e.st[0], e.st[1], e.st[2], e.st[3]]
    ensures Live(buf, d3.input) && View(buf, d3.input) == below + e.bits
  {
    PushKeepsOthers(freqs, e, 3, b[3], e3);
    PushKeepsOthers(freqs, e3, 2, b[2], e2);
    PushKeepsOthers(freqs, e2, 1, b[1], e1);
    PushKeepsOthers(freqs, e1, 0, b[0], e0);
    PopLit(t, freqs, e1, 0, b[0], e0, buf, s, d0, below, 56);
    PopLit(t, freqs, e2, 1, b[1], e1, buf, d0.input, d1, below, 46);
    PopLit(t, freqs, e3, 2, b[2], e2, buf, d1.input, d2, below, 36);
    PopLit(t, freqs, e, 3, b[3], e3, buf, d2.input, d3, below, 26);
  }

  lemma PopGroup(t: seq<DecEntry>, freqs: seq<nat>, e: LitEnc, b: seq<nat>, top: LitEnc,
                 buf: seq<byte>, input: InState, below: seq<bool>)
    requires InvertsLits(t, freqs) && StatesOk(e.st) && |below| >= 56
    requires |b| == 4 && forall i :: 0 <= i < 4 ==> Encodable(freqs, LIT_P, b[i])
    requires top == PushGroup(freqs, e, b[0], b[1], b[2], b[3])
    requires Live(buf, input) && View(buf, input) == below + top.bits
    ensures Safe(buf, input, 0)
    ensures var g := LitGroup(t, buf, input, top.st);
            && g.bytes == b && g.states == e.st
            && Live(buf, g.input) && View(buf, g.input) == below + e.bits
  {
    LiveIsSafe(buf, input);
    var e0, e1, e2, e3 := GroupPushes(freqs, e, b[0], b[1], b[2], b[3]);
    var d0, d1, d2, d3 := GroupDecodes(t, buf, input, top.st);
    var s := Refilled(buf, input);
    PopFour(t, freqs, b, e, e3, e2, e1, e0, buf, s, below, d0, d1, d2, d3);
    FourElements(b);
    FourElements(e.st);
  }

  lemma FourElements(s: seq<nat>)
    requires |s| == 4
    ensures s == [s[0], s[1], s[2], s[3]]
  {
  }

  lemma Refilled(buf: seq<byte>, input: InState) returns (s: InState)
    requires Live(buf, input) && |View(buf, input)| >= 56
    ensures s == FlushF(buf, input) && Live(buf, s) && 56 <= s.nbits && View(buf, s) == View(buf, input)
  {
    FlushKeepsView(buf, input);
    s := FlushF(buf, input);
  }

  /** The first group decodes to the last group encoded, and leaves the encoder's state before it. */
  lemma FirstGroup(t: seq<DecEntry>, freqs: seq<nat>, lits: seq<byte>, buf: seq<byte>, input: InState, below: seq<bool>)
    returns (g: Group)
    requires LitsEncodable(freqs, lits) && InvertsLits(t, freqs) && |below| >= 56 && lits != []
    requires Live(buf, input) && View(buf, input) == below + EncodeLits(freqs, lits).bits
    ensures |lits| >= 4 && LitsEncodable(freqs, lits[4..])
    ensures IsGroup(t, buf, input, EncodeLits(freqs, lits).st, g)
    ensures g.bytes == lits[..4] && g.states == EncodeLits(freqs, lits[4..]).st
    ensures Live(buf, g.input) && View(buf, g.input) == below + EncodeLits(freqs, lits[4..]).bits
  {
    LiveIsSafe(buf, input);
    GroupEncodable(freqs, lits);
    var e, top := EncodeLits(freqs, lits[4..]), EncodeLits(freqs, lits);
    PopGroup(t, freqs, e, lits[..4], top, buf, input, below);
    g := LitGroup(t, buf, input, top.st);
  }

  /** Reversal of the interleaved literal stream: the decoder returns exactly the literals. */
  lemma {:induction false} LiteralsReversal(t: seq<DecEntry>, freqs: seq<nat>, lits: seq<byte>,
                                            buf: seq<byte>, input: InState, below: seq<bool>, n: nat)
    requires LitsEncodable(freqs, lits) && InvertsLits(t, freqs) && |below| >= 56 && |lits| == 4 * n
    requires Live(buf, input) && View(buf, input) == below + EncodeLits(freqs, lits).bits
    ensures YieldsLiterals(t, buf, input, EncodeLits(freqs, lits).st, n, lits)
    decreases n
  {
    LiveIsSafe(buf, input);
    if n == 0 {
    } else {
      var g := FirstGroup(t, freqs, lits, buf, input, below);
      LiteralsReversal(t, freqs, lits[4..], buf, g.input, below, n - 1);
      GroupThenRest(t, buf, input, EncodeLits(freqs, lits).st, g, n, lits);
    }
  }

  /** Where decoding n groups ends: the four states and the reader. */
  ghost function LitEnd(t: seq<DecEntry>, buf: seq<byte>, s: InState, st: seq<nat>, n: nat): Group
    requires SafeTable(t, LIT_P) && Safe(buf, s, 0) && StatesOk(st)
    decreases n
  {
    if n == 0 then Group([], st, s)
    else
      var g := LitGroup(t, buf, s, st);
      LitEnd(t, buf, g.input, g.states, n - 1)
  }

  /** Decoding n groups ends in these states, with these bits still to read. */
  ghost predicate EndsIn(t: seq<DecEntry>, buf: seq<byte>, s: InState, st: seq<nat>, n: nat,
                         states: seq<nat>, below: seq<bool>)
  {
    && SafeTable(t, LIT_P) && Safe(buf, s, 0) && StatesOk(st)
    && forall m: nat :: m == n ==>
         var end := LitEnd(t, buf, s, st, m);
         end.states == states && Live(buf, end.input) && View(buf, end.input) == below
  }

  lemma GroupThenEnd(t: seq<DecEntry>, buf: seq<byte>, s: InState, st: seq<nat>, n: nat, g: Group,
                     states: seq<nat>, below: seq<bool>)
    requires n > 0 && IsGroup(t, buf, s, st, g)
    requires EndsIn(t, buf, g.input, g.states, n - 1, states, below)
    ensures EndsIn(t, buf, s, st, n, states, below)
  {
    assert LitGroup(t, buf, s, st) == g;
    assert LitEnd(t, buf, s, st, n) == LitEnd(t, buf, g.input, g.states, n - 1);
  }

  lemma EndsAtOnce(t: seq<DecEntry>, buf: seq<byte>, s: InState, st: seq<nat>, below: seq<bool>)
    requires SafeTable(t, LIT_P) && Live(buf, s) && Safe(buf, s, 0) && StatesOk(st) && View(buf, s) == below
    ensures EndsIn(t, buf, s, st, 0, st, below)
  {
  }

  /** It ends in the four states the encoder started from, with the bits below the literals still to read. */
  lemma {:induction false} LiteralsReversalEnds(t: seq<DecEntry>, freqs: seq<nat>, lits: seq<byte>,
                                                buf: seq<byte>, input: InState, below: seq<bool>, n: nat)
    requires LitsEncodable(freqs, lits) && InvertsLits(t, freqs) && |below| >= 56 && |lits| == 4 * n
    requires Live(buf, input) && View(buf, input) == below + EncodeLits(freqs, lits).bits
    ensures EndsIn(t, buf, input, EncodeLits(freqs, lits).st, n, [0, 0, 0, 0], below)
    decreases n
  {
    LiveIsSafe(buf, input);
    if n == 0 {
      assert below + [] == below;
      EndsAtOnce(t, buf, input, EncodeLits(freqs, lits).st, below);
    } else {
      var g := FirstGroup(t, freqs, lits, buf, input, below);
      LiteralsReversalEnds(t, freqs, lits[4..], buf, g.input, below, n - 1);
      GroupThenEnd(t, buf, input, EncodeLits(freqs, lits).st, n, g, [0, 0, 0, 0], below);
    }
  }

  lemma GroupThenRest(t: seq<DecEntry>, buf: seq<byte>, s: InState, st: seq<nat>, g: Group, n: nat, lits: seq<byte>)
    requires 0 < n && |lits| == 4 * n && IsGroup(t, buf, s, st, g) && g.bytes == lits[..4]
    requires YieldsLiterals(t, buf, g.input, g.states, n - 1, lits[4..])
    ensures YieldsLiterals(t, buf, s, st, n, lits)
  {
    assert LitRun(t, buf, g.input, g.states, n - 1) == lits[4..];
    LitRunStep(t, buf, s, st, n, g);
    assert lits == lits[..4] + lits[4..];
  }

  // ---------------------------------------------------------------- the L, M, D stream

  /** One value channel: its table's size, frequencies, extra bits and bases. */
  datatype Chan = Chan(p: nat, freqs: seq<nat>, extra: seq<nat>, base: seq<int>, max: int, maxExtra: nat)

  /** Bits written so far and the channel's state. */
  datatype ValEnc = ValEnc(bits: seq<bool>, state: nat)

  ghost predicate ChanOk(c: Chan) {
    && |c.freqs| == |c.extra| == |c.base| && Sum(c.freqs) <= Pow2(c.p)
    && Row(c.base, c.extra, 0, c.max) && forall s :: 0 <= s < |c.extra| ==> c.extra[s] <= c.maxExtra
  }

  ghost predicate CanPush(c: Chan, v: int) {
    ChanOk(c) && 0 <= v <= c.max && Encodable(c.freqs, c.p, Symbol(v, c.base))
  }

  function CodedValue(c: Chan, v: int): Coded
    requires Row(c.base, c.extra, 0, c.max) && 0 <= v <= c.max
  {
    SymbolUnique(v, c.base, c.extra, c.max);
    Coded(Symbol(v, c.base), v - c.base[Symbol(v, c.base)])
  }

  /** Extra bits first, then the state bits. */
  ghost function PushValue(c: Chan, e: ValEnc, v: int): (r: ValEnc)
    requires CanPush(c, v) && e.state < Pow2(c.p)
    ensures r.state < Pow2(c.p)
  {
    var x := CodedValue(c, v);
    ValEnc(e.bits + StepBits(c.freqs, c.p, c.extra[x.sym], x, e.state), StepOf(c.freqs, c.p, x.sym, e.state).next)
  }

  ghost predicate IsValuePush(c: Chan, e: ValEnc, v: int, e2: ValEnc) {
    CanPush(c, v) && e.state < Pow2(c.p) && forall x: ValEnc :: x == e ==> e2 == PushValue(c, x, v)
  }

  ghost predicate IsValueDecode(t: seq<ValueEntry>, state: nat, s: InState, d: Decoded) {
    state < |t| && forall x: InState :: x == s ==> d == FseValueDecodeF(t, state, x)
  }

  /** One value read back: the bits below it and the state it was pushed on are left. */
  lemma PopValue(t: seq<ValueEntry>, c: Chan, e: ValEnc, v: int, e2: ValEnc,
                 buf: seq<byte>, input: InState, d: Decoded, below: seq<bool>, k: nat)
    requires Inverts(t, c.freqs, c.p, c.extra, c.base)
    requires IsValuePush(c, e, v, e2) && IsValueDecode(t, e2.state, input, d)
    requires Live(buf, input) && c.p + c.maxExtra <= k <= input.nbits && View(buf, input) == below + e2.bits
    ensures d.value == v && d.state == e.state
    ensures Live(buf, d.input) && View(buf, d.input) == below + e.bits && k - c.p - c.maxExtra <= d.input.nbits
  {
    assert e2 == PushValue(c, e, v) && d == FseValueDecodeF(t, e2.state, input);
    var x := CodedValue(c, v);
    SymbolUnique(v, c.base, c.extra, c.max);
    var was: seq<ValueEntry> :| |was| == Pow2(c.p) && t == ValueTable(c.freqs, c.p, c.extra, c.base, was);
    SeqAssoc(below, e.bits, StepBits(c.freqs, c.p, c.extra[x.sym], x, e.state));
    ValueDecodeUndoes(c.freqs, c.p, c.extra, c.base, x, e.state, was, buf, input, below + e.bits);
  }

  function LChan(f: seq<nat>): Chan { Chan(L_P, f, L_EXTRA, L_BASE, MAX_L, 8) }

  function MChan(f: seq<nat>): Chan { Chan(M_P, f, M_EXTRA, M_BASE, MAX_M, 11) }

  function DChan(f: seq<nat>): Chan { Chan(D_P, f, D_EXTRA, D_BASE, MAX_D, 15) }

  lemma ChansOk(l: seq<nat>, m: seq<nat>, d: seq<nat>)
    requires |l| == 20 && |m| == 20 && |d| == 64
    requires Sum(l) <= Pow2(L_P) && Sum(m) <= Pow2(M_P) && Sum(d) <= Pow2(D_P)
    ensures ChanOk(LChan(l)) && ChanOk(MChan(m)) && ChanOk(DChan(d))
  {
    LTable();
    MTable();
    DTable();
    DExtraBound();
  }

  /** The three frequency tables. */
  datatype Freqs = Freqs(l: seq<nat>, m: seq<nat>, d: seq<nat>)

  /** Bits written and the three states. */
  datatype LmdEnc = LmdEnc(bits: seq<bool>, l: nat, m: nat, d: nat)

  ghost predicate LmdEncOk(e: LmdEnc) {
    e.l < Pow2(L_P) && e.m < Pow2(M_P) && e.d < Pow2(D_P)
  }

  ghost predicate RecEncodable(f: Freqs, r: Rec) {
    CanPush(LChan(f.l), r.L) && CanPush(MChan(f.m), r.M) && CanPush(DChan(f.d), r.D)
  }

  /** One record: D, then M, then L, so that the decoder meets L first. */
  ghost function PushRec(f: Freqs, e: LmdEnc, r: Rec): (e2: LmdEnc)
    requires RecEncodable(f, r) && LmdEncOk(e)
    ensures LmdEncOk(e2)
  {
    var d := PushValue(DChan(f.d), ValEnc(e.bits, e.d), r.D);
    var m := PushValue(MChan(f.m), ValEnc(d.bits, e.m), r.M);
    var l := PushValue(LChan(f.l), ValEnc(m.bits, e.l), r.L);
    LmdEnc(l.bits, l.state, m.state, d.state)
  }

  ghost predicate AllEncodable(f: Freqs, recs: seq<Rec>) {
    forall r <- recs :: RecEncodable(f, r)
  }

  lemma RestEncodable(f: Freqs, recs: seq<Rec>)
    requires AllEncodable(f, recs) && recs != []
    ensures RecEncodable(f, recs[0]) && AllEncodable(f, recs[1..])
  {
    assert recs[0] in recs;
    assert forall r <- recs[1..] :: r in recs;
  }

  const NO_RECS := LmdEnc([], 0, 0, 0)

  /** Encoding the records last to first, all states starting at 0. */
  ghost function EncodeRecs(f: Freqs, recs: seq<Rec>): (e: LmdEnc)
    requires AllEncodable(f, recs)
    ensures LmdEncOk(e)
  {
    if recs == [] then NO_RECS
    else
      RestEncodable(f, recs);
      PushRec(f, EncodeRecs(f, recs[1..]), recs[0])
  }

  /** Tables built for these frequencies. */
  ghost predicate InvertsLmd(t: Tables, f: Freqs) {
    && TablesOk(t)
    && Inverts(t.l, f.l, L_P, L_EXTRA, L_BASE)
    && Inverts(t.m, f.m, M_P, M_EXTRA, M_BASE)
    && Inverts(t.d, f.d, D_P, D_EXTRA, D_BASE)
  }

  lemma RecPushes(f: Freqs, e: LmdEnc, r: Rec) returns (d: ValEnc, m: ValEnc, l: ValEnc)
    requires RecEncodable(f, r) && LmdEncOk(e)
    ensures IsValuePush(DChan(f.d), ValEnc(e.bits, e.d), r.D, d)
    ensures IsValuePush(MChan(f.m), ValEnc(d.bits, e.m), r.M, m)
    ensures IsValuePush(LChan(f.l), ValEnc(m.bits, e.l), r.L, l)
    ensures PushRec(f, e, r) == LmdEnc(l.bits, l.state, m.state, d.state)
  {
    d := PushValue(DChan(f.d), ValEnc(e.bits, e.d), r.D);
    m := PushValue(MChan(f.m), ValEnc(d.bits, e.m), r.M);
    l := PushValue(LChan(f.l), ValEnc(m.bits, e.l), r.L);
  }

  lemma RecDecodes(t: Tables, buf: seq<byte>, s: LmdState) returns (l: Decoded, m: Decoded, d: Decoded)
    requires TablesOk(t) && LmdOk(buf, s)
    ensures IsValueDecode(t.l, s.l, FlushF(buf, s.input), l) && IsValueDecode(t.m, s.m, l.input, m)
    ensures Safe(buf, m.input, 0) && IsValueDecode(t.d, s.d, FlushF(buf, m.input), d)
    ensures l.value >= 0 && m.value >= 0 && d.value >= 0 && l.state >= 0 && m.state >= 0 && d.state >= 0
    ensures LmdStep(t, buf, s)
            == (Rec(l.value, m.value, d.value), LmdState(l.state, m.state, d.state, d.input))
  {
    FlushSafe(buf, s.input);
    l := ValueStep(t.l, L_P, 8, MAX_L, s.l, buf, FlushF(buf, s.input), 56);
    m := ValueStep(t.m, M_P, 11, MAX_M, s.m, buf, l.input, 42);
    SafeWeaken(buf, m.input, 25, 0);
    FlushSafe(buf, m.input);
    d := ValueStep(t.d, D_P, 15, MAX_D, s.d, buf, FlushF(buf, m.input), 56);
  }

  /** Popping a record undoes pushing it. */
  lemma PopRec(t: Tables, f: Freqs, e: LmdEnc, r: Rec, top: LmdEnc, buf: seq<byte>, s: LmdState, below: seq<bool>)
    requires InvertsLmd(t, f) && RecEncodable(f, r) && LmdEncOk(e) && top == PushRec(f, e, r)
    requires s.l == top.l && s.m == top.m && s.d == top.d && |below| >= 56
    requires Live(buf, s.input) && View(buf, s.input) == below + top.bits
    ensures LmdOk(buf, s)
    ensures var (r2, next) := LmdStep(t, buf, s);
            && r2 == r && next.l == e.l && next.m == e.m && next.d == e.d
            && Live(buf, next.input) && View(buf, next.input) == below + e.bits
  {
    LiveIsSafe(buf, s.input);
    var ed, em, el := RecPushes(f, e, r);
    var l, m, d := RecDecodes(t, buf, s);
    var s1 := Refilled(buf, s.input);
    PopValue(t.l, LChan(f.l), ValEnc(em.bits, e.l), r.L, el, buf, s1, l, below, 56);
    PopValue(t.m, MChan(f.m), ValEnc(ed.bits, e.m), r.M, em, buf, l.input, m, below, 42);
    var s2 := Refilled(buf, m.input);
    PopValue(t.d, DChan(f.d), ValEnc(e.bits, e.d), r.D, ed, buf, s2, d, below, 56);
  }

  /** Reversal of the L/M/D stream: the decoder returns exactly the records. */
  lemma {:induction false} RecordsReversal(t: Tables, f: Freqs, recs: seq<Rec>, buf: seq<byte>, s: LmdState,
                                           below: seq<bool>)
    requires AllEncodable(f, recs) && InvertsLmd(t, f) && |below| >= 56
    requires var e := EncodeRecs(f, recs);
             && s.l == e.l && s.m == e.m && s.d == e.d
             && Live(buf, s.input) && View(buf, s.input) == below + e.bits
    ensures YieldsRecords(t, buf, s, recs)
    decreases |recs|
  {
    LiveIsSafe(buf, s.input);
    if recs == [] {
    } else {
      RestEncodable(f, recs);
      var e, top := EncodeRecs(f, recs[1..]), EncodeRecs(f, recs);
      PopRec(t, f, e, recs[0], top, buf, s, below);
      var next := LmdStep(t, buf, s).1;
      RecordsReversal(t, f, recs[1..], buf, next, below);
      RecordThenRest(t, buf, s, next, recs);
    }
  }

  lemma RecordThenRest(t: Tables, buf: seq<byte>, s: LmdState, next: LmdState, recs: seq<Rec>)
    requires TablesOk(t) && LmdOk(buf, s) && recs != [] && LmdStep(t, buf, s) == (recs[0], next)
    requires YieldsRecords(t, buf, next, recs[1..])
    ensures YieldsRecords(t, buf, s, recs)
  {
    assert recs == [recs[0]] + recs[1..];
    forall n: nat | n == |recs|
      ensures LmdRun(t, buf, s, n) == recs
    {
      assert LmdRun(t, buf, next, n - 1) == recs[1..];
    }
  }

  /** After n records the three states are 0 and the bits below are still to read. */
  ghost predicate RecordsEnd(t: Tables, buf: seq<byte>, s: LmdState, n: nat, below: seq<bool>)
    requires TablesOk(t)
    decreases n
  {
    LmdOk(buf, s) &&
    if n == 0 then s.l == 0 && s.m == 0 && s.d == 0 && Live(buf, s.input) && View(buf, s.input) == below
    else RecordsEnd(t, buf, LmdStep(t, buf, s).1, n - 1, below)
  }

  /** The same, as a fact to pass around. */
  ghost predicate EndsAtZero(t: Tables, buf: seq<byte>, s: LmdState, n: nat, below: seq<bool>) {
    forall x: LmdState :: x == s ==> TablesOk(t) && RecordsEnd(t, buf, x, n, below)
  }

  /** next is the state after one record, as a fact to pass around. */
  ghost predicate StepsTo(t: Tables, buf: seq<byte>, s: LmdState, next: LmdState) {
    forall x: LmdState :: x == s ==> TablesOk(t) && LmdOk(buf, x) && LmdStep(t, buf, x).1 == next
  }

  lemma {:induction false} RecordThenEnd(t: Tables, buf: seq<byte>, s: LmdState, next: LmdState, n: nat,
                                         below: seq<bool>)
    requires StepsTo(t, buf, s, next) && n > 0 && EndsAtZero(t, buf, next, n - 1, below)
    ensures EndsAtZero(t, buf, s, n, below)
  {
    assert LmdOk(buf, s);
    assert LmdStep(t, buf, s).1 == next;
    assert RecordsEnd(t, buf, next, n - 1, below);
  }

  /** The tables invert the encoding, as a fact to pass around. */
  ghost predicate TablesInvert(t: Tables, f: Freqs) {
    forall x: Freqs :: x == f ==> InvertsLmd(t, x)
  }

  /** The records lie on top of the stream, under the states they were encoded to, as a fact to pass around. */
  ghost predicate OnTop(f: Freqs, recs: seq<Rec>, buf: seq<byte>, s: LmdState, below: seq<bool>) {
    && Live(buf, s.input)
    && forall o: seq<Rec> :: o == recs ==>
         && AllEncodable(f, o)
         && var e := EncodeRecs(f, o);
            s.l == e.l && s.m == e.m && s.d == e.d && View(buf, s.input) == below + e.bits
  }

  lemma {:induction false} FirstRecord(t: Tables, f: Freqs, recs: seq<Rec>, buf: seq<byte>, s: LmdState,
                                       below: seq<bool>) returns (next: LmdState)
    requires recs != [] && TablesInvert(t, f) && |below| >= 56 && OnTop(f, recs, buf, s, below)
    ensures StepsTo(t, buf, s, next) && OnTop(f, recs[1..], buf, next, below)
  {
    assert InvertsLmd(t, f) && AllEncodable(f, recs);
    LiveIsSafe(buf, s.input);
    RestEncodable(f, recs);
    PopRec(t, f, EncodeRecs(f, recs[1..]), recs[0], EncodeRecs(f, recs), buf, s, below);
    next := LmdStep(t, buf, s).1;
  }

  lemma {:induction false} NoRecords(t: Tables, f: Freqs, buf: seq<byte>, s: LmdState, below: seq<bool>)
    requires TablesInvert(t, f) && OnTop(f, [], buf, s, below)
    ensures EndsAtZero(t, buf, s, 0, below)
  {
    assert InvertsLmd(t, f);
    assert AllEncodable(f, []) && EncodeRecs(f, []) == NO_RECS;
    assert below + [] == below;
    LiveIsSafe(buf, s.input);
  }

  lemma {:induction false} PopsToZero(t: Tables, f: Freqs, recs: seq<Rec>, buf: seq<byte>, s: LmdState,
                                      below: seq<bool>)
    requires TablesInvert(t, f) && |below| >= 56 && OnTop(f, recs, buf, s, below)
    ensures EndsAtZero(t, buf, s, |recs|, below)
    decreases |recs|
  {
    if recs == [] {
      NoRecords(t, f, buf, s, below);
    } else {
      var next := FirstRecord(t, f, recs, buf, s, below);
      PopsToZero(t, f, recs[1..], buf, next, below);
      RecordThenEnd(t, buf, s, next, |recs|, below);
    }
  }

  /** It ends in the three zero states the encoder started from, with the bits below the records still to read. */
  lemma {:induction false} RecordsReversalEnds(t: Tables, f: Freqs, recs: seq<Rec>, buf: seq<byte>, s: LmdState,
                                               below: seq<bool>)
    requires AllEncodable(f, recs) && InvertsLmd(t, f) && |below| >= 56
    requires var e := EncodeRecs(f, recs);
             && s.l == e.l && s.m == e.m && s.d == e.d
             && Live(buf, s.input) && View(buf, s.input) == below + e.bits
    ensures EndsAtZero(t, buf, s, |recs|, below)
  {
    PopsToZero(t, f, recs, buf, s, below);
  }
}
