/** LZFSE's match finder: a hash table of recent positions and one pending match. */
module FindMatches {
  import opened Bits
  import opened Lz
  import opened Lmd
  import opened Records

  const ENCODE_HASH_WIDTH := 4
  const ENCODE_HASH_VALUES := 16384
  const ENCODE_GOOD_MATCH := 40

  type Four = s: seq<nat> | |s| == ENCODE_HASH_WIDTH witness [0, 0, 0, 0]

  /** The last four positions seen with this hash, latest first, and the words found there. */
  datatype HashEntry = HashEntry(pos: Four, value: Four)

  const EMPTY_ENTRY := HashEntry([0, 0, 0, 0], [0, 0, 0, 0])

  /** Knuth's multiplicative hash of a 32-bit word. */
  function LzfseHash(x: nat): (h: nat)
    ensures h < ENCODE_HASH_VALUES
  {
    var product := x * 2654435761 % 0x1_0000_0000;
    ShrBelow32(product);
    Shr(product, 18)
  }

  lemma LzfseHashIsTopBits(x: nat)
    ensures var h := LzfseHash(x); h * 262144 <= x * 2654435761 % 4294967296 < (h + 1) * 262144
  {
    var product := x * 2654435761 % 4294967296;
    ShrLow(product, 18);
    assert Pow2(18) == 262144 by { Pow2Values(); }
  }

  lemma ShrBelow32(x: nat)
    requires x < 0x1_0000_0000
    ensures Shr(x, 18) < ENCODE_HASH_VALUES
  {
    Pow2Big();
    assert Pow2(14) == 16384 by { Pow2Values(); }
    ShrBelow(x, 18, 14);
  }

  // ---------------------------------------------------------------- growing a parse

  /** Where the last match of a parse ends. */
  function EndOf(litPos: nat, ms: seq<Match>): nat
    decreases |ms|
  {
    if ms == [] then litPos else EndOf(ms[0].pos + ms[0].M, ms[1..])
  }

  /** A good match after the end of a valid parse extends it. */
  lemma {:induction false} ParseGrows(src: seq<byte>, litPos: nat, ms: seq<Match>, m: Match)
    requires ValidMatches(src, litPos, ms, |src|) && GoodMatch(src, EndOf(litPos, ms), m)
    ensures ValidMatches(src, litPos, ms + [m], |src|) && EndOf(litPos, ms + [m]) == m.pos + m.M
    decreases |ms|
  {
    if ms == [] {
      assert ([] + [m])[1..] == [];
    } else {
      assert (ms + [m])[1..] == ms[1..] + [m];
      ParseGrows(src, ms[0].pos + ms[0].M, ms[1..], m);
    }
  }

  // ---------------------------------------------------------------- the search as a function

  /** A match found but not yet emitted. */
  datatype Pending = NoPending | Pending(pos: nat, M: nat, D: nat)

  datatype State = State(table: seq<HashEntry>, ms: seq<Match>, litStart: nat, pending: Pending, i: nat)

  function Start(): State {
    State(seq(ENCODE_HASH_VALUES, _ => EMPTY_ENTRY), [], 0, NoPending, 0)
  }

  function Load32(src: seq<byte>, i: nat): nat
    requires i + 4 <= |src|
  {
    LE(src[i..i + 4])
  }

  /** How many bytes agree, at most 2359, of which M are known to. */
  function MatchLength(src: seq<byte>, i: nat, j: nat, M: nat): nat
    requires j < i && i + M <= |src|
    decreases |src| - M
  {
    if i + M < |src| && M < MAX_M && src[i + M] == src[j + M] then MatchLength(src, i, j, M + 1) else M
  }

  datatype Found = Found(M: nat, D: nat)

  /** Of the first k positions in a bucket with word x, the longest match; the nearest among equals. */
  function BestOf(src: seq<byte>, i: nat, x: nat, e: HashEntry, k: nat): Found
    requires i < |src| && k <= ENCODE_HASH_WIDTH
  {
    if k == 0 then Found(0, 0)
    else
      var best, j := BestOf(src, i, x, e, k - 1), e.pos[k - 1];
      if e.value[k - 1] != x || j >= i || i - j > MAX_D then best
      else
        var M := MatchLength(src, i, j, 0);
        if M >= 3 && (M > best.M || (M == best.M && i - j < best.D)) then Found(M, i - j) else best
  }

  /** Emitting the pending match. */
  function Emit(s: State): State
    requires s.pending.Pending?
  {
    var p := s.pending;
    s.(ms := s.ms + [Match(p.pos, p.pos - s.litStart, p.M, p.D)], litStart := p.pos + p.M, pending := NoPending)
  }

  /** What the finder does with a match at i: keep it, replace the pending one, or emit the pending one. */
  function Kept(s: State, f: Found): State {
    if s.pending.NoPending? || f.M > s.pending.M || (f.M == s.pending.M && f.D < s.pending.D)
    then s.(pending := Pending(s.i, f.M, f.D))
    else Emit(s)
  }

  /** A match of at least 40 bytes is emitted at once. */
  function Considered(s: State, f: Found): (s': State)
    requires f.M >= 3
    ensures s.i < s'.i && s'.table == s.table
  {
    var s1 := Kept(s, f);
    if f.M >= ENCODE_GOOD_MATCH then
      State(s1.table, s1.ms + [Match(s.i, s.i - s1.litStart, f.M, f.D)], s.i + f.M, NoPending, s.i + f.M)
    else s1.(i := s.i + 1)
  }

  function Remember(src: seq<byte>, table: seq<HashEntry>, i: nat): (t: seq<HashEntry>)
    requires i + 4 <= |src| && |table| == ENCODE_HASH_VALUES
    ensures |t| == ENCODE_HASH_VALUES
  {
    var x := Load32(src, i);
    var e := table[LzfseHash(x)];
    table[LzfseHash(x) := HashEntry([i] + e.pos[..3], [x] + e.value[..3])]
  }

  /** The pending match is emitted once the search has passed its end. */
  function Flushed(s: State): (s': State)
    ensures s'.i == s.i && s'.table == s.table
  {
    if s.pending.Pending? && s.i >= s.pending.pos + s.pending.M then Emit(s) else s
  }

  /** The best match at i, if i is not inside an emitted match. */
  function Candidate(src: seq<byte>, s: State): Found
    requires s.i + 4 <= |src| && |s.table| == ENCODE_HASH_VALUES
  {
    var x := Load32(src, s.i);
    if s.i >= s.litStart then BestOf(src, s.i, x, s.table[LzfseHash(x)], ENCODE_HASH_WIDTH) else Found(0, 0)
  }

  /** One turn of the loop. */
  function Turn(src: seq<byte>, s: State): (s': State)
    requires s.i + 8 < |src| && |s.table| == ENCODE_HASH_VALUES
    ensures s.i < s'.i && |s'.table| == ENCODE_HASH_VALUES
  {
    var s1 := Flushed(s);
    var f := Candidate(src, s1);
    var s2 := s1.(table := Remember(src, s.table, s.i));
    if f.M < 3 then s2.(i := s.i + 1) else Considered(s2, f)
  }

  function Run(src: seq<byte>, s: State): State
    requires |s.table| == ENCODE_HASH_VALUES
    decreases |src| - s.i
  {
    if s.i + 8 < |src| then Run(src, Turn(src, s)) else s
  }

  function LastEmitted(s: State): seq<Match> {
    if s.pending.Pending? then Emit(s).ms else s.ms
  }

  /** The match list of a source. */
  function Parse(src: seq<byte>): seq<Match> {
    if |src| < 4 then [] else LastEmitted(Run(src, Start()))
  }

  // ---------------------------------------------------------------- what it keeps

  /** M bytes at i repeat those D before: a match the format can write. */
  ghost predicate Good(src: seq<byte>, i: nat, M: nat, D: nat) {
    3 <= M <= MAX_M && D <= MAX_D && Repeats(src, i, D, M)
  }

  ghost predicate AllLong(ms: seq<Match>) {
    forall m <- ms :: m.M >= 3
  }

  /** A valid parse of the source up to litStart, of matches of at least 3 bytes. */
  ghost predicate ParsedTo(src: seq<byte>, ms: seq<Match>, litStart: nat) {
    && litStart <= |src|
    && forall l: seq<Match> :: l == ms ==> ValidMatches(src, 0, l, |src|) && EndOf(0, l) == litStart && AllLong(l)
  }

  /**
   * The search state: a valid parse up to litStart, and a pending match that lies after it, has begun before i,
   * and is always shorter than a good match.
   */
  ghost predicate SearchOk(src: seq<byte>, s: State) {
    && ParsedTo(src, s.ms, s.litStart)
    && (s.pending.Pending? ==>
          && s.litStart <= s.pending.pos < s.i && s.pending.M < ENCODE_GOOD_MATCH
          && Good(src, s.pending.pos, s.pending.M, s.pending.D))
  }

  lemma ParsedAppends(src: seq<byte>, ms: seq<Match>, litStart: nat, m: Match)
    requires ParsedTo(src, ms, litStart) && litStart <= m.pos && m.L == m.pos - litStart && Good(src, m.pos, m.M, m.D)
    ensures ParsedTo(src, ms + [m], m.pos + m.M)
  {
    assert ValidMatches(src, 0, ms, |src|) && EndOf(0, ms) == litStart && AllLong(ms);
    ParseGrows(src, 0, ms, m);
  }

  lemma EmitKeeps(src: seq<byte>, s: State)
    requires SearchOk(src, s) && s.pending.Pending?
    ensures SearchOk(src, Emit(s))
  {
    var p := s.pending;
    ParsedAppends(src, s.ms, s.litStart, Match(p.pos, p.pos - s.litStart, p.M, p.D));
  }

  /** The bytes counted agree, and the count stops only at a difference, the end or 2359. */
  lemma {:induction false} MatchLengthExact(src: seq<byte>, i: nat, j: nat, M: nat)
    requires j < i && i + M <= |src| && M <= MAX_M && Repeats(src, i, i - j, M)
    ensures var n := MatchLength(src, i, j, M);
            && M <= n <= MAX_M && i + n <= |src| && Repeats(src, i, i - j, n)
            && (n < MAX_M && i + n < |src| ==> !Same(src, i + n, i - j))
    decreases |src| - M
  {
    if i + M >= |src| || M >= MAX_M || src[i + M] != src[j + M] {
    } else {
      assert Same(src, i + M, i - j);
      MatchLengthExact(src, i, j, M + 1);
    }
  }

  /** The best candidate is a verified match in range. */
  lemma {:induction false} BestOfGood(src: seq<byte>, i: nat, x: nat, e: HashEntry, k: nat)
    requires i < |src| && k <= ENCODE_HASH_WIDTH
    ensures var f := BestOf(src, i, x, e, k); f.M == 0 || Good(src, i, f.M, f.D)
  {
    if k == 0 {
    } else {
      BestOfGood(src, i, x, e, k - 1);
      if e.pos[k - 1] < i { MatchLengthExact(src, i, e.pos[k - 1], 0); }
    }
  }

  /** A pending match that survives is shorter than 40, so at most one match is emitted at a position. */
  lemma ConsideredKeeps(src: seq<byte>, s: State, f: Found)
    requires SearchOk(src, s) && s.litStart <= s.i && Good(src, s.i, f.M, f.D)
    requires s.pending.Pending? ==> s.i < s.pending.pos + s.pending.M
    ensures SearchOk(src, Considered(s, f))
    ensures |Considered(s, f).ms| <= |s.ms| + 1
  {
    if !(s.pending.NoPending? || f.M > s.pending.M || (f.M == s.pending.M && f.D < s.pending.D)) {
      EmitKeeps(src, s);
    }
    if f.M >= ENCODE_GOOD_MATCH {
      ParsedAppends(src, s.ms, s.litStart, Match(s.i, s.i - s.litStart, f.M, f.D));
    }
  }

  lemma TurnKeeps(src: seq<byte>, s: State)
    requires SearchOk(src, s) && s.i + 8 < |src| && |s.table| == ENCODE_HASH_VALUES
    ensures SearchOk(src, Turn(src, s))
  {
    var s1 := Flushed(s);
    if s.pending.Pending? && s.i >= s.pending.pos + s.pending.M { EmitKeeps(src, s); }
    var x := Load32(src, s.i);
    BestOfGood(src, s.i, x, s.table[LzfseHash(x)], ENCODE_HASH_WIDTH);
    var f, s2 := Candidate(src, s1), s1.(table := Remember(src, s.table, s.i));
    assert SearchOk(src, s2);
    if f.M >= 3 { ConsideredKeeps(src, s2, f); }
  }

  lemma {:induction false} RunKeeps(src: seq<byte>, s: State)
    requires SearchOk(src, s) && |s.table| == ENCODE_HASH_VALUES
    ensures SearchOk(src, Run(src, s))
    decreases |src| - s.i
  {
    if s.i + 8 >= |src| {
    } else {
      TurnKeeps(src, s);
      RunKeeps(src, Turn(src, s));
    }
  }

  /** Every source gives a valid parse: in order, not overlapping, each match a verified copy in range. */
  lemma ParseIsValid(src: seq<byte>)
    ensures ValidMatches(src, 0, Parse(src), |src|) && AllLong(Parse(src))
  {
    if |src| >= 4 {
      assert SearchOk(src, Start());
      RunKeeps(src, Start());
      var s := Run(src, Start());
      if s.pending.Pending? { EmitKeeps(src, s); }
      var l := LastEmitted(s);
      assert ParsedTo(src, l, EndOf(0, l));
    }
  }

  // ---------------------------------------------------------------- the search as the code runs it

  method ExtendMatch(src: seq<byte>, i: nat, j: nat) returns (M: nat)
    requires j < i < |src|
    ensures M == MatchLength(src, i, j, 0)
  {
    M := 0;
    while i + M < |src| && j + M < |src| && src[i + M] == src[j + M]
      invariant i + M <= |src| && M < MAX_M
      invariant MatchLength(src, i, j, M) == MatchLength(src, i, j, 0)
      decreases |src| - M
    {
      M := M + 1;
      if M >= MAX_M { break; }
    }
  }

  method BestInBucket(src: seq<byte>, i: nat, x: nat, e: HashEntry) returns (bestM: nat, bestD: nat)
    requires i < |src|
    ensures Found(bestM, bestD) == BestOf(src, i, x, e, ENCODE_HASH_WIDTH)
  {
    bestM, bestD := 0, 0;
    for k := 0 to ENCODE_HASH_WIDTH
      invariant Found(bestM, bestD) == BestOf(src, i, x, e, k)
    {
      if e.value[k] != x { continue; }
      var j := e.pos[k];
      var D := i - j;
      if D <= 0 || D > MAX_D { continue; }
      var M := ExtendMatch(src, i, j);
      if M >= 3 && (M > bestM || (M == bestM && D < bestD)) {
        bestM, bestD := M, D;
      }
    }
  }

  /** The bucket of the word at i, and the table with i shifted into it. */
  method LookUp(table: array<HashEntry>, src: seq<byte>, i: nat) returns (x: nat, e: HashEntry)
    requires table.Length == ENCODE_HASH_VALUES && i + 4 <= |src|
    modifies table
    ensures x == Load32(src, i) && e == old(table[LzfseHash(x)])
    ensures table[..] == Remember(src, old(table[..]), i)
  {
    x := LE(src[i..i + 4]);
    var h := LzfseHash(x);
    e := table[h];
    table[h] := HashEntry([i] + e.pos[..3], [x] + e.value[..3]);
  }

  /** One turn of the loop. */
  method Step(table: array<HashEntry>, src: seq<byte>, ms0: seq<Match>, litStart0: nat, pending0: Pending, i0: nat)
    returns (ms: seq<Match>, litStart: nat, pending: Pending, i: nat)
    requires table.Length == ENCODE_HASH_VALUES && i0 + 8 < |src|
    modifies table
    ensures State(table[..], ms, litStart, pending, i)
            == Turn(src, old(State(table[..], ms0, litStart0, pending0, i0)))
  {
    ms, litStart, pending, i := ms0, litStart0, pending0, i0;
    var x, e := LookUp(table, src, i);
    if pending.Pending? && i >= pending.pos + pending.M {
      ms := ms + [Match(pending.pos, pending.pos - litStart, pending.M, pending.D)];
      litStart := pending.pos + pending.M;
      pending := NoPending;
    }
    var bestM, bestD := 0, 0;
    if i >= litStart {
      bestM, bestD := BestInBucket(src, i, x, e);
    }
    if bestM < 3 {
      i := i + 1;
    } else {
      ms, litStart, pending, i := Consider(ms, litStart, pending, i, bestM, bestD, table[..]);
    }
  }

  method Consider(ms0: seq<Match>, litStart0: nat, pending0: Pending, i0: nat, bestM: nat, bestD: nat,
                  ghost t: seq<HashEntry>)
    returns (ms: seq<Match>, litStart: nat, pending: Pending, i: nat)
    requires bestM >= 3
    ensures State(t, ms, litStart, pending, i)
            == Considered(State(t, ms0, litStart0, pending0, i0), Found(bestM, bestD))
  {
    ms, litStart, pending, i := ms0, litStart0, pending0, i0;
    if pending.NoPending? {
      pending := Pending(i, bestM, bestD);
    } else if bestM > pending.M || (bestM == pending.M && bestD < pending.D) {
      pending := Pending(i, bestM, bestD);
    } else {
      ms := ms + [Match(pending.pos, pending.pos - litStart, pending.M, pending.D)];
      litStart := pending.pos + pending.M;
      pending := NoPending;
    }
    if bestM >= ENCODE_GOOD_MATCH {
      ms := ms + [Match(i, i - litStart, bestM, bestD)];
      litStart := i + bestM;
      i := litStart - 1;
      pending := NoPending;
    }
    i := i + 1;
  }

  method FindMatches(src: seq<byte>) returns (matches: seq<Match>)
    requires |src| < 0x8000_0000
    ensures matches == Parse(src)
  {
    matches := [];
    if |src| < 4 { return; }
    var table := new HashEntry[ENCODE_HASH_VALUES](_ => EMPTY_ENTRY);
    var srcEnd := |src| - 8;
    var pending := NoPending;
    var litStart := 0;
    var i := 0;
    assert table[..] == Start().table;
    while i < srcEnd
      invariant fresh(table) && table.Length == ENCODE_HASH_VALUES
      invariant Run(src, State(table[..], matches, litStart, pending, i)) == Run(src, Start())
      decreases srcEnd - i
    {
      matches, litStart, pending, i := Step(table, src, matches, litStart, pending, i);
    }
    if pending.Pending? {
      matches := matches + [Match(pending.pos, pending.pos - litStart, pending.M, pending.D)];
    }
  }
}
