/** The compressed-block decoder as the code runs it: refills, table loops, and 16-byte over-copies. */
module BlockDecode {
  import opened Bits
  import opened FseTables
  import opened FseStream
  import opened FseCoder
  import opened Lmd
  import opened Lz
  import opened Records
  import opened BlockSpec

  /** Bytes a fixed 16-byte copy may write past the logical end of the output. */
  const COPY_OVERSHOOT := 16

  /** The decode tables, kept from one block to the next. */
  class Scratch {
    const lit: array<DecEntry>
    const l: array<ValueEntry>
    const m: array<ValueEntry>
    const d: array<ValueEntry>

    constructor ()
      ensures Valid() && fresh(lit) && fresh(l) && fresh(m) && fresh(d)
      ensures Tables() == EmptyTables()
    {
      lit := new DecEntry[Pow2(LIT_P)](_ => DecEntry(0, 0, 0));
      l := new ValueEntry[Pow2(L_P)](_ => ValueEntry(0, 0, 0, 0));
      m := new ValueEntry[Pow2(M_P)](_ => ValueEntry(0, 0, 0, 0));
      d := new ValueEntry[Pow2(D_P)](_ => ValueEntry(0, 0, 0, 0));
      new;
      EmptyTablesOk();
    }

    ghost function Tables(): Tables
      reads lit, l, m, d
    {
      BlockSpec.Tables(lit[..], l[..], m[..], d[..])
    }

    ghost predicate Valid()
      reads lit, l, m, d
    {
      && l != m && TablesOk(Tables())
      && lit.Length == Pow2(LIT_P) && l.Length == Pow2(L_P) && m.Length == Pow2(M_P) && d.Length == Pow2(D_P)
      && l != d && m != d
    }

    /** Fills the four tables for a header; the error is a table whose frequencies exceed its states. */
    method Build(h: Header) returns (ok: bool)
      requires Valid() && HeaderOk(h)
      modifies lit, l, m, d
      ensures ok <==> FreqsFit(h)
      ensures ok ==> Valid() && Tables() == BuildTables(h, old(Tables()))
    {
      ok := InitDecoderTable(h.literalFreq, lit.Length, lit, LIT_P);
      if !ok { return; }
      ok := InitValueDecoderTable(h.lFreq, l.Length, L_EXTRA, L_BASE, l, L_P);
      if !ok { return; }
      ok := InitValueDecoderTable(h.mFreq, m.Length, M_EXTRA, M_BASE, m, M_P);
      if !ok { return; }
      ok := InitValueDecoderTable(h.dFreq, d.Length, D_EXTRA, D_BASE, d, D_P);
      if !ok { return; }
      BuiltTablesOk(h, old(Tables()));
    }
  }

  function EmptyTables(): Tables {
    BlockSpec.Tables(seq(Pow2(LIT_P), _ => DecEntry(0, 0, 0)), seq(Pow2(L_P), _ => ValueEntry(0, 0, 0, 0)),
                     seq(Pow2(M_P), _ => ValueEntry(0, 0, 0, 0)), seq(Pow2(D_P), _ => ValueEntry(0, 0, 0, 0)))
  }

  lemma EmptyTablesOk()
    ensures TablesOk(EmptyTables())
  {
    assert Pow2(0) == 1;
  }

  // ---------------------------------------------------------------- the literal loop

  /** Four literals, one from each state, after the refill. */
  method DecodeFour(lit: seq<byte>, table: array<DecEntry>, input: InStream, ptr: int, st: seq<nat>, ghost s: InState)
    returns (bytes: seq<byte>, states: seq<nat>)
    requires SafeTable(table[..], LIT_P) && Safe(lit, s, 0) && StatesOk(st) && input.State(ptr) == FlushF(lit, s)
    modifies input
    ensures IsGroup(table[..], lit, s, st, Group(bytes, states, input.State(ptr)))
  {
    ghost var t := table[..];
    FlushSafe(lit, s);
    ghost var d0 := LitStep(t, st[0], lit, input.State(ptr), 56);
    var b0, s0 := FseDecode(st[0], table, input, ptr);
    ghost var d1 := LitStep(t, st[1], lit, d0.input, 46);
    var b1, s1 := FseDecode(st[1], table, input, ptr);
    ghost var d2 := LitStep(t, st[2], lit, d1.input, 36);
    var b2, s2 := FseDecode(st[2], table, input, ptr);
    ghost var d3 := LitStep(t, st[3], lit, d2.input, 26);
    var b3, s3 := FseDecode(st[3], table, input, ptr);
    bytes, states := [b0, b1, b2, b3], [s0, s1, s2, s3];
    assert LitGroup(t, lit, s, st) == Group(bytes, states, input.State(ptr));
  }

  /** One refill and four literals, written to literals[i..i + 4]. */
  method DecodeGroup(lit: seq<byte>, table: array<DecEntry>, input: InStream, ptr: int, st: seq<nat>,
                     literals: array<byte>, i: nat)
    returns (states: seq<nat>, newPtr: int)
    requires SafeTable(table[..], LIT_P) && Safe(lit, input.State(ptr), 0) && StatesOk(st)
    requires i + 4 <= literals.Length
    modifies input, literals
    ensures IsGroup(table[..], lit, old(input.State(ptr)), st,
                    Group(literals[i..i + 4], states, input.State(newPtr)))
    ensures literals[..i] == old(literals[..i])
  {
    ghost var s := input.State(ptr);
    newPtr := input.Flush(lit, ptr);
    var bytes;
    bytes, states := DecodeFour(lit, table, input, newPtr, st, s);
    literals[i], literals[i + 1], literals[i + 2], literals[i + 3] := bytes[0], bytes[1], bytes[2], bytes[3];
    assert literals[i..i + 4] == bytes;
  }

  /** The stream at state s goes on with n groups of literals, which are these. */
  ghost predicate YieldsLiterals(t: seq<DecEntry>, buf: seq<byte>, s: InState, st: seq<nat>, n: nat, bytes: seq<byte>) {
    && SafeTable(t, LIT_P) && Safe(buf, s, 0) && StatesOk(st) && |bytes| == 4 * n
    && forall m: nat :: m == n ==> LitRun(t, buf, s, st, m) == bytes
  }

  lemma LiteralsAfterGroup(t: seq<DecEntry>, buf: seq<byte>, s: InState, st: seq<nat>, g: Group, n: nat,
                           bytes: seq<byte>)
    requires YieldsLiterals(t, buf, s, st, n, bytes) && n > 0 && IsGroup(t, buf, s, st, g)
    ensures g.bytes == bytes[..4] && YieldsLiterals(t, buf, g.input, g.states, n - 1, bytes[4..])
  {
    assert LitRun(t, buf, s, st, n) == bytes;
    var rest := LitRunUnfold(t, buf, s, st, n, g, bytes);
    forall m: nat | m == n - 1
      ensures LitRun(t, buf, g.input, g.states, m) == bytes[4..]
    {
      assert bytes[4..] == rest;
    }
  }

  /** The next group of a stream known to go on with the literals rest. */
  method NextGroup(lit: seq<byte>, table: array<DecEntry>, input: InStream, ptr: int, st: seq<nat>,
                   literals: array<byte>, i: nat, ghost n: nat, ghost rest: seq<byte>)
    returns (states: seq<nat>, newPtr: int)
    requires YieldsLiterals(table[..], lit, input.State(ptr), st, n, rest)
    requires 0 < n && i + 4 <= literals.Length
    modifies input, literals
    ensures YieldsLiterals(table[..], lit, input.State(newPtr), states, n - 1, rest[4..])
    ensures literals[..i] == old(literals[..i]) && literals[i..i + 4] == rest[..4]
  {
    ghost var s := input.State(ptr);
    states, newPtr := DecodeGroup(lit, table, input, ptr, st, literals, i);
    ghost var g := Group(literals[i..i + 4], states, input.State(newPtr));
    LiteralsAfterGroup(table[..], lit, s, st, g, n, rest);
  }

  method DecodeLiteralGroups(lit: seq<byte>, table: array<DecEntry>, input: InStream, ptr0: int, st0: seq<nat>,
                             literals: array<byte>, ghost n: nat, ghost all: seq<byte>)
    requires YieldsLiterals(table[..], lit, input.State(ptr0), st0, n, all) && |all| == literals.Length
    modifies input, literals
    ensures literals[..] == all
  {
    var i, ptr, states := 0, ptr0, st0;
    ghost var t, left := table[..], n;
    assert all[0..] == all;
    while i < literals.Length
      invariant i + 4 * left == literals.Length && table[..] == t
      invariant literals[..i] == all[..i]
      invariant YieldsLiterals(t, lit, input.State(ptr), states, left, all[i..])
    {
      states, ptr := NextGroup(lit, table, input, ptr, states, literals, i, left, all[i..]);
      GroupAppends(literals[..], all, i);
      i, left := i + 4, left - 1;
    }
  }

  lemma GroupAppends(a: seq<byte>, all: seq<byte>, i: nat)
    requires |a| == |all| && i + 4 <= |a| && a[..i] == all[..i] && a[i..i + 4] == all[i..][..4]
    ensures a[..i + 4] == all[..i + 4] && all[i..][4..] == all[i + 4..]
  {
    assert a[..i + 4] == a[..i] + a[i..i + 4];
    assert all[..i + 4] == all[..i] + all[i..][..4];
  }

  method DecodeLiterals(h: Header, lit: seq<byte>, sc: Scratch) returns (ok: bool, literals: array<byte>)
    requires HeaderOk(h) && sc.Valid()
    ensures fresh(literals)
    ensures ok <==> InInit(lit, |lit|, h.literalBits).Some? && h.nLiterals % 4 == 0
    ensures ok ==> literals[..] == Literals(h, lit, sc.Tables())
  {
    literals := new byte[h.nLiterals];
    var input;
    ok, input := OpenStream(lit, |lit|, h.literalBits);
    if !ok { return; }
    if h.nLiterals % 4 != 0 { return false, literals; }
    var ptr := if h.literalBits != 0 then |lit| - 8 else |lit| - 7;
    ghost var all := Literals(h, lit, sc.Tables());
    LiteralsYield(h, lit, sc.Tables(), input.State(ptr), all);
    DecodeLiteralGroups(lit, sc.lit, input, ptr, h.literalState, literals, h.nLiterals / 4, all);
  }

  lemma LiteralsYield(h: Header, lit: seq<byte>, t: Tables, input: InState, all: seq<byte>)
    requires HeaderOk(h) && TablesOk(t) && h.nLiterals % 4 == 0
    requires InInit(lit, |lit|, h.literalBits) == Some(input) && all == Literals(h, lit, t)
    ensures YieldsLiterals(t.lit, lit, input, h.literalState, h.nLiterals / 4, all) && |all| == h.nLiterals
  {
    InitSafe(lit, |lit|, h.literalBits);
    RunYields(t.lit, lit, input, h.literalState, h.nLiterals / 4, all);
  }

  lemma RunYields(t: seq<DecEntry>, buf: seq<byte>, s: InState, st: seq<nat>, n: nat, bytes: seq<byte>)
    requires SafeTable(t, LIT_P) && Safe(buf, s, 0) && StatesOk(st) && bytes == LitRun(t, buf, s, st, n)
    ensures YieldsLiterals(t, buf, s, st, n, bytes)
  {
  }

  // ---------------------------------------------------------------- output

  /** A buffer of used + extra bytes that keeps out[..used]; what follows is unspecified. */
  method GrowOut(out: array<byte>, used: nat, extra: nat) returns (grown: array<byte>)
    requires used <= out.Length
    ensures fresh(grown) && grown.Length == used + extra && grown[..used] == out[..used]
  {
    grown := new byte[used + extra];
    CopyIn(grown, 0, out[..used]);
  }

  lemma SameSlice(a: seq<byte>, i: nat, b: seq<byte>, j: nat, n: nat)
    requires i + n <= |a| && j + n <= |b| && forall k :: i <= k < i + n ==> a[k] == b[j + (k - i)]
    ensures a[i..i + n] == b[j..j + n]
  {
  }

  /** Copies L literals; a short run is one fixed 16-byte copy when 16 literals are left. */
  method CopyLiterals(out: array<byte>, di: nat, literals: array<byte>, litPos: nat, L: nat)
    requires out != literals && di + L + COPY_OVERSHOOT <= out.Length && litPos + L <= literals.Length
    modifies out
    ensures out[..di + L] == old(out[..di]) + literals[litPos..litPos + L]
  {
    if L <= 16 && litPos + 16 <= literals.Length {
      CopyIn(out, di, literals[litPos..litPos + 16]);
    } else {
      CopyIn(out, di, literals[litPos..litPos + L]);
    }
    assert out[..di] == old(out[..di]);
    SameSlice(out[..], di, literals[..], litPos, L);
    assert out[..di + L] == out[..di] + out[di..di + L];
  }

  /** Copies a match; a short one that does not overlap is one fixed 16-byte copy that reads only real output. */
  method CopyMatch(out: array<byte>, di: nat, d: nat, M: nat)
    requires 1 <= d <= di && di + M + COPY_OVERSHOOT <= out.Length
    modifies out
    ensures out[..di + M] == LzCopy(old(out[..di]), d, M)
  {
    ghost var was := out[..di];
    var mpos := di - d;
    if M <= 16 && d >= 16 {
      CopyWithin(out, di, mpos, 16);
      assert out[..di + M][..di] == was;
      LzCopyUnique(was, d, M, out[..di + M]);
    } else {
      MatchCopyInto(out, di, mpos, M);
    }
  }

  // ---------------------------------------------------------------- the L, M, D loop

  /** The three states and the reader of the L/M/D stream. */
  class LmdReader {
    var l: nat
    var m: nat
    var d: nat
    var ptr: int
    const input: InStream

    constructor (h: Header, s: InStream, p: int)
      ensures l == h.lState && m == h.mState && d == h.dState && ptr == p && input == s
    {
      l, m, d, ptr, input := h.lState, h.mState, h.dState, p, s;
    }

    function State(): LmdState
      reads this, input
    {
      LmdState(l, m, d, input.State(ptr))
    }

    /** Decodes one record. */
    method Next(lmd: seq<byte>, sc: Scratch) returns (r: Rec)
      requires sc.Valid() && LmdOk(lmd, State())
      modifies this, input
      ensures (r, State()) == LmdStep(sc.Tables(), lmd, old(State()))
    {
      ghost var t := sc.Tables();
      FlushSafe(lmd, input.State(ptr));
      ptr := input.Flush(lmd, ptr);
      ghost var dl := ValueStep(t.l, L_P, 8, MAX_L, l, lmd, input.State(ptr), 56);
      var L, M, D;
      L, l := FseValueDecode(l, sc.l, input, ptr);
      ghost var dm := ValueStep(t.m, M_P, 11, MAX_M, m, lmd, dl.input, 42);
      M, m := FseValueDecode(m, sc.m, input, ptr);
      SafeWeaken(lmd, dm.input, 25, 0);
      FlushSafe(lmd, dm.input);
      ptr := input.Flush(lmd, ptr);
      ghost var dd := ValueStep(t.d, D_P, 15, MAX_D, d, lmd, input.State(ptr), 56);
      D, d := FseValueDecode(d, sc.d, input, ptr);
      r := Rec(L, M, D);
    }
  }

  /** Replays one record into the output: grow if needed, copy the literals, copy the match. */
  method CopyRecord(out0: array<byte>, di: nat, literals: array<byte>, litPos: nat, L: nat, M: nat, d: nat)
    returns (ok: bool, out: array<byte>)
    requires di <= out0.Length && litPos <= literals.Length && out0 != literals
    modifies out0
    ensures (out == out0 || fresh(out)) && di <= out.Length
    ensures ok <==> litPos + L <= literals.Length && (M == 0 || 1 <= d <= di + L)
    ensures ok ==> di + L + M <= out.Length
    ensures ok ==> var out1 := old(out0[..di]) + literals[litPos..litPos + L];
                   out[..di + L + M] == if M == 0 then out1 else LzCopy(out1, d, M)
  {
    out := out0;
    if di + L + M + COPY_OVERSHOOT > out.Length {
      out := GrowOut(out, di, L + M + COPY_OVERSHOOT);
    }
    if litPos + L > literals.Length { return false, out; }
    CopyLiterals(out, di, literals, litPos, L);
    if M > 0 {
      if d <= 0 || d > di + L { return false, out; }
      CopyMatch(out, di + L, d, M);
    }
    return true, out;
  }

  /** The stream at state s goes on with these records. */
  ghost predicate YieldsRecords(t: Tables, lmd: seq<byte>, s: LmdState, recs: seq<Rec>) {
    && TablesOk(t) && LmdOk(lmd, s)
    && forall n: nat :: n == |recs| ==> LmdRun(t, lmd, s, n) == recs
  }

  lemma RecordsAfterStep(t: Tables, lmd: seq<byte>, s: LmdState, recs: seq<Rec>)
    requires YieldsRecords(t, lmd, s, recs) && recs != []
    ensures var (r, next) := LmdStep(t, lmd, s);
            r == recs[0] && YieldsRecords(t, lmd, next, recs[1..])
  {
    assert LmdRun(t, lmd, s, |recs|) == recs;
  }

  /** The next record of a stream known to go on with recs. */
  method NextRecord(lmd: seq<byte>, sc: Scratch, reader: LmdReader, ghost recs: seq<Rec>) returns (r: Rec)
    requires sc.Valid() && YieldsRecords(sc.Tables(), lmd, reader.State(), recs) && recs != []
    modifies reader, reader.input
    ensures r == recs[0] && YieldsRecords(sc.Tables(), lmd, reader.State(), recs[1..])
  {
    RecordsAfterStep(sc.Tables(), lmd, reader.State(), recs);
    r := reader.Next(lmd, sc);
  }

  /** Replaying recs from this state gives r. */
  ghost predicate ReplaysTo(out: seq<byte>, lits: seq<byte>, D: nat, recs: seq<Rec>, r: Option<seq<byte>>) {
    forall x: seq<Rec> :: x == recs ==> Replay(out, lits, D, x) == r
  }

  lemma ReplayFails(out: seq<byte>, lits: seq<byte>, D: nat, recs: seq<Rec>, d: nat, r: Option<seq<byte>>)
    requires ReplaysTo(out, lits, D, recs, r) && recs != [] && d == if recs[0].D != 0 then recs[0].D else D
    requires recs[0].L > |lits| || (recs[0].M > 0 && !(1 <= d <= |out| + recs[0].L))
    ensures r == None
  {
    assert Replay(out, lits, D, recs) == r;
  }

  lemma ReplayAdvances(out: seq<byte>, lits: seq<byte>, D: nat, recs: seq<Rec>, d: nat, r: Option<seq<byte>>,
                       run: seq<byte>, next: seq<byte>)
    requires ReplaysTo(out, lits, D, recs, r) && recs != [] && d == if recs[0].D != 0 then recs[0].D else D
    requires recs[0].L <= |lits| && (recs[0].M == 0 || 1 <= d <= |out| + recs[0].L) && run == lits[..recs[0].L]
    requires next == if recs[0].M == 0 then out + run else LzCopy(out + run, d, recs[0].M)
    ensures ReplaysTo(next, lits[recs[0].L..], d, recs[1..], r)
  {
    assert Replay(out, lits, D, recs) == r;
  }

  /** Remembers a record's distance and replays it. */
  method ApplyRecord(r: Rec, literals: array<byte>, out0: array<byte>, di0: nat, litPos0: nat, D0: nat,
                     ghost recs: seq<Rec>, ghost result: Option<seq<byte>>)
    returns (ok: bool, out: array<byte>, di: nat, litPos: nat, D: nat)
    requires recs != [] && r == recs[0]
    requires di0 <= out0.Length && litPos0 <= literals.Length && out0 != literals
    requires ReplaysTo(out0[..di0], literals[litPos0..], D0, recs, result)
    modifies out0
    ensures (out == out0 || fresh(out)) && di <= out.Length && litPos <= literals.Length
    ensures ok ==> ReplaysTo(out[..di], literals[litPos..], D, recs[1..], result)
    ensures !ok ==> result == None
  {
    ghost var was, lits := out0[..di0], literals[litPos0..];
    di, litPos, D := di0, litPos0, D0;
    if r.D != 0 {
      D := r.D;
    }
    ok, out := CopyRecord(out0, di, literals, litPos, r.L, r.M, D);
    if !ok {
      ReplayFails(was, lits, D0, recs, D, result);
      return;
    }
    ghost var run, next := lits[..r.L], out[..di + r.L + r.M];
    TailSlices(literals[..], litPos, r.L);
    assert run == literals[litPos..litPos + r.L] && lits[r.L..] == literals[litPos + r.L..];
    ReplayAdvances(was, lits, D0, recs, D, result, run, next);
    di, litPos := di + r.L + r.M, litPos + r.L;
  }

  /** One round of the loop: decode a record and replay it. */
  method ReplayNext(lmd: seq<byte>, sc: Scratch, reader: LmdReader, literals: array<byte>, out0: array<byte>,
                    di0: nat, litPos0: nat, D0: nat, ghost recs: seq<Rec>, ghost result: Option<seq<byte>>)
    returns (ok: bool, out: array<byte>, di: nat, litPos: nat, D: nat)
    requires sc.Valid() && YieldsRecords(sc.Tables(), lmd, reader.State(), recs) && recs != []
    requires di0 <= out0.Length && litPos0 <= literals.Length && out0 != literals
    requires ReplaysTo(out0[..di0], literals[litPos0..], D0, recs, result)
    modifies reader, reader.input, out0
    ensures (out == out0 || fresh(out)) && di <= out.Length && litPos <= literals.Length
    ensures ok ==> YieldsRecords(sc.Tables(), lmd, reader.State(), recs[1..])
    ensures ok ==> ReplaysTo(out[..di], literals[litPos..], D, recs[1..], result)
    ensures !ok ==> result == None
  {
    var r := NextRecord(lmd, sc, reader, recs);
    ok, out, di, litPos, D := ApplyRecord(r, literals, out0, di0, litPos0, D0, recs, result);
  }

  lemma TailSlices(s: seq<byte>, a: nat, n: nat)
    requires a + n <= |s|
    ensures s[a..a + n] == s[a..][..n] && s[a..][n..] == s[a + n..]
  {
  }

  /**
   * The L/M/D loop. Its result is exactly the LZ replay of the decoded records on the whole stream so far:
   * no byte past the logical end is ever visible or used as a match source.
   */
  method CopyLoop(nMatches: nat, lmd: seq<byte>, sc: Scratch, reader: LmdReader, literals: array<byte>,
                  out0: array<byte>, used: nat, ghost all: seq<Rec>)
    returns (ok: bool, out: array<byte>, di: nat)
    requires sc.Valid() && YieldsRecords(sc.Tables(), lmd, reader.State(), all) && |all| == nMatches
    requires used <= out0.Length && out0 != literals
    modifies reader, reader.input, out0
    ensures (out == out0 || fresh(out)) && di <= out.Length
    ensures Replay(old(out0[..used]), literals[..], 0, all) == if ok then Some(out[..di]) else None
  {
    ghost var lits := literals[..];
    ghost var result := Replay(out0[..used], lits, 0, all);
    out, di, ok := out0, used, true;
    var litPos: nat, D: nat := 0, 0;
    assert literals[0..] == lits && all[0..] == all;
    for i := 0 to nMatches
      invariant (out == out0 || fresh(out)) && di <= out.Length && litPos <= literals.Length && out != literals
      invariant literals[..] == lits
      invariant YieldsRecords(sc.Tables(), lmd, reader.State(), all[i..])
      invariant ReplaysTo(out[..di], literals[litPos..], D, all[i..], result)
    {
      assert all[i..][1..] == all[i + 1..];
      ok, out, di, litPos, D := ReplayNext(lmd, sc, reader, literals, out, di, litPos, D, all[i..], result);
      if !ok { return; }
    }
    assert Replay(out[..di], literals[litPos..], D, []) == result;
  }

  /** Opening and running the L/M/D stream. */
  method DecodeLmd(h: Header, lmd: seq<byte>, sc: Scratch, literals: array<byte>, out0: array<byte>, used: nat)
    returns (ok: bool, out: array<byte>, di: nat)
    requires HeaderOk(h) && sc.Valid() && used <= out0.Length && out0 != literals
    modifies out0
    ensures (out == out0 || fresh(out)) && di <= out.Length
    ensures ok ==> InInit(lmd, |lmd|, h.lmdBits).Some?
    ensures InInit(lmd, |lmd|, h.lmdBits).Some? ==>
              Replay(old(out0[..used]), literals[..], 0, LmdRecords(h, lmd, sc.Tables()))
              == if ok then Some(out[..di]) else None
  {
    out, di := out0, used;
    var input;
    ok, input := OpenStream(lmd, |lmd|, h.lmdBits);
    if !ok { return; }
    InitSafe(lmd, |lmd|, h.lmdBits);
    var ptr := if h.lmdBits != 0 then |lmd| - 8 else |lmd| - 7;
    var reader := new LmdReader(h, input, ptr);
    ok, out, di := CopyLoop(h.nMatches, lmd, sc, reader, literals, out, used, LmdRecords(h, lmd, sc.Tables()));
  }

  lemma PayloadResult(h: Header, lit: seq<byte>, lmd: seq<byte>, prior: seq<byte>, t: Tables,
                      litOk: bool, lits: seq<byte>, r: Option<seq<byte>>)
    requires HeaderOk(h) && TablesOk(t)
    requires litOk <==> InInit(lit, |lit|, h.literalBits).Some? && h.nLiterals % 4 == 0
    requires litOk ==> lits == Literals(h, lit, t)
    requires litOk && r.Some? ==> InInit(lmd, |lmd|, h.lmdBits).Some?
    requires litOk && InInit(lmd, |lmd|, h.lmdBits).Some? ==> Replay(prior, lits, 0, LmdRecords(h, lmd, t)) == r
    ensures IsPayload(h, lit, lmd, prior, t,
                      if litOk && r.Some? && |r.value| - |prior| == h.nRawBytes then r else None)
  {
  }

  /** DecodePayload's answer, as a fact to pass around. */
  ghost predicate IsPayload(h: Header, lit: seq<byte>, lmd: seq<byte>, prior: seq<byte>, t: Tables,
                            r: Option<seq<byte>>)
  {
    && HeaderOk(h) && TablesOk(t)
    && forall p: seq<byte> :: p == prior ==> DecodePayload(h, lit, lmd, p, t) == r
  }

  /** Decodes the two streams of a block whose tables are built. */
  method DecodeStreams(h: Header, lit: seq<byte>, lmd: seq<byte>, prior: array<byte>, used: nat, sc: Scratch)
    returns (ok: bool, out: array<byte>, di: nat)
    requires HeaderOk(h) && sc.Valid() && used <= prior.Length
    ensures (out == prior || fresh(out)) && di <= out.Length
    ensures IsPayload(h, lit, lmd, prior[..used], sc.Tables(), if ok then Some(out[..di]) else None)
  {
    out, di := prior, used;
    ghost var t, was := sc.Tables(), prior[..used];
    var literals;
    ok, literals := DecodeLiterals(h, lit, sc);
    if !ok {
      PayloadResult(h, lit, lmd, was, t, false, [], None);
      return;
    }
    out := GrowOut(out, used, h.nRawBytes + COPY_OVERSHOOT);
    ok, out, di := DecodeLmd(h, lmd, sc, literals, out, used);
    PayloadResult(h, lit, lmd, was, t, true, literals[..], if ok then Some(out[..di]) else None);
    ok := ok && di - used == h.nRawBytes;
  }

  /**
   * Decodes one block and appends it to the stream prior[..used]. Any payload is safe: every table index is in
   * range whatever the bits say. The answer is DecodeBlock's, and prior itself is not written.
   */
  method DecodeCompressedBlock(h: Header, src: seq<byte>, start: nat, prior: array<byte>, used: nat, sc: Scratch)
    returns (ok: bool, out: array<byte>, di: nat)
    requires HeaderOk(h) && sc.Valid() && start <= |src| && used <= prior.Length
    modifies sc.lit, sc.l, sc.m, sc.d
    ensures (out == prior || fresh(out)) && di <= out.Length
    ensures ok ==> FreqsFit(h) && sc.Valid() && sc.Tables() == BuildTables(h, old(sc.Tables()))
    ensures FreqsFit(h) ==>
              TablesOk(BuildTables(h, old(sc.Tables())))
              && DecodeBlock(h, src, start, prior[..used], BuildTables(h, old(sc.Tables())))
                 == if ok then Some(out[..di]) else None
  {
    out, di := prior, used;
    if FreqsFit(h) { BuiltTablesOk(h, sc.Tables()); }
    if h.nLiteralPayloadBytes + h.nLMDPayloadBytes > |src| - start { return false, out, di; }
    var litStream, lmdPayload := LiteralPart(h, src, start), LmdPart(h, src, start);
    ok := sc.Build(h);
    if !ok { return; }
    ok, out, di := DecodeStreams(h, litStream, lmdPayload, prior, used, sc);
    BlockResult(h, src, start, prior[..used], sc.Tables(), if ok then Some(out[..di]) else None);
  }

  lemma BlockResult(h: Header, src: seq<byte>, start: nat, prior: seq<byte>, t: Tables, r: Option<seq<byte>>)
    requires start + h.nLiteralPayloadBytes + h.nLMDPayloadBytes <= |src|
    requires IsPayload(h, LiteralPart(h, src, start), LmdPart(h, src, start), prior, t, r)
    ensures DecodeBlock(h, src, start, prior, t) == r
  {
    BlockIsPayload(h, src, start, prior, t);
    assert DecodePayload(h, LiteralPart(h, src, start), LmdPart(h, src, start), prior, t) == r;
  }
}
