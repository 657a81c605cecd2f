/** The LZVN encoder's search as a function of the source: candidate matches, the lazy rule, and what it keeps. */
module LzvnSearch {
  import opened Bits
  import opened Lz
  import opened LzvnEmit

  const HASH_VALUES := 0x1_0000
  const MAX_DISTANCE := 0xFFFF
  const MIN_SRC_SIZE := 8
  const MIN_MARGIN := 8

  // ---------------------------------------------------------------- words and matching bytes

  function Load32(src: seq<byte>, i: nat): nat
    requires i + 4 <= |src|
  {
    LE(src[i..i + 4])
  }

  function Hash3(v: nat): (h: nat)
    ensures h < HASH_VALUES
  {
    v % 0x100_0000 * 4161 % 0x1_0000_0000 / 4096 % HASH_VALUES
  }

  /** How many of the four bytes at i agree with those at j. */
  function Common(src: seq<byte>, i: nat, j: nat): (n: nat)
    requires i + 4 <= |src| && j + 4 <= |src|
    ensures n <= 4
  {
    if src[i] != src[j] then 0
    else if src[i + 1] != src[j + 1] then 1
    else if src[i + 2] != src[j + 2] then 2
    else if src[i + 3] != src[j + 3] then 3
    else 4
  }

  predicate SameThree(src: seq<byte>, i: nat, j: nat)
    requires i + 3 <= |src| && j + 3 <= |src|
  {
    src[i] == src[j] && src[i + 1] == src[j + 1] && src[i + 2] == src[j + 2]
  }

  lemma CommonThree(src: seq<byte>, i: nat, j: nat)
    requires i + 4 <= |src| && j + 4 <= |src|
    ensures Common(src, i, j) >= 3 <==> SameThree(src, i, j)
  {
  }

  /** Agreeing bytes extend a repetition, and the first that differs ends it. */
  lemma CommonRepeats(src: seq<byte>, at: nat, i: nat, d: nat)
    requires at <= i && i + 4 <= |src| && Repeats(src, at, d, i - at)
    ensures var n := Common(src, i, i - d); Repeats(src, at, d, i + n - at) && (n < 4 ==> !Same(src, i + n, d))
  {
    forall k | i <= k < i + Common(src, i, i - d)
      ensures Same(src, k, d)
    {
      assert k == i || k == i + 1 || k == i + 2 || k == i + 3;
    }
  }

  // ---------------------------------------------------------------- candidate matches

  datatype MatchInfo = MatchInfo(mBegin: nat, mEnd: nat, M: nat, D: nat, K: int)

  const NO_MATCH := MatchInfo(0, 0, 0, 0, 0)

  /** A match that really repeats earlier source bytes, starts at or after lBegin and not after at. */
  ghost predicate Verified(src: seq<byte>, m: MatchInfo, lBegin: nat, at: nat) {
    && 3 <= m.M && m.mEnd == m.mBegin + m.M && m.D <= MAX_DISTANCE
    && Repeats(src, m.mBegin, m.D, m.M)
    && lBegin <= m.mBegin <= at && at + 3 <= m.mEnd
  }

  /** Where a match at distance D ends: n is how much of the last four bytes agreed. */
  function Forward(src: seq<byte>, mEnd: nat, D: nat, n: nat): (e: nat)
    requires D <= mEnd
    decreases |src| - mEnd, n
  {
    if n == 4 && mEnd + 4 < |src| then
      var n' := Common(src, mEnd, mEnd - D);
      Forward(src, mEnd + n', D, n')
    else mEnd
  }

  /** Where it begins when extended over pending literals, but not past lBegin. */
  function Back(src: seq<byte>, lBegin: nat, mBegin: nat, D: nat): (b: nat)
    requires D <= mBegin <= |src|
    ensures b <= mBegin
  {
    if mBegin > lBegin && mBegin > 0 && Same(src, mBegin - 1, D) then Back(src, lBegin, mBegin - 1, D)
    else mBegin
  }

  /** The match at position at with the bytes at j, of which n are known to agree; NO_MATCH if there is none. */
  function FindN(src: seq<byte>, lBegin: nat, j: nat, at: nat, n: nat): MatchInfo
    requires at + 4 <= |src| && n <= 4
  {
    if n < 3 || j >= at || at - j > MAX_DISTANCE then NO_MATCH
    else
      var D := at - j;
      var e, b := Forward(src, at + n, D, n), Back(src, lBegin, at, D);
      MatchInfo(b, e, Max(e - b, 0), D, e - b - (if D < 0x600 then 2 else 3))
  }

  lemma {:induction false} ForwardRepeats(src: seq<byte>, at: nat, mEnd: nat, D: nat, n: nat)
    requires 1 <= D <= at <= mEnd <= |src| && Repeats(src, at, D, mEnd - at) && n <= 4
    requires n < 4 ==> !Same(src, mEnd, D)
    ensures var e := Forward(src, mEnd, D, n);
            && mEnd <= e <= |src| && Repeats(src, at, D, e - at)
            && (e + 4 < |src| ==> !Same(src, e, D))
    decreases |src| - mEnd, n
  {
    if n != 4 || mEnd + 4 >= |src| {
    } else {
      var n' := Common(src, mEnd, mEnd - D);
      CommonRepeats(src, at, mEnd, D);
      ForwardRepeats(src, at, mEnd + n', D, n');
    }
  }

  lemma {:induction false} BackRepeats(src: seq<byte>, lBegin: nat, mBegin: nat, D: nat, e: nat)
    requires lBegin <= mBegin <= e && Repeats(src, mBegin, D, e - mBegin)
    ensures var b := Back(src, lBegin, mBegin, D);
            && lBegin <= b && Repeats(src, b, D, e - b)
    decreases mBegin
  {
    if mBegin <= lBegin || mBegin == 0 || !Same(src, mBegin - 1, D) {
    } else {
      BackRepeats(src, lBegin, mBegin - 1, D, e);
    }
  }

  /** A match found is a verified copy, extended back at most to lBegin and forward as far as it goes. */
  lemma FindNVerified(src: seq<byte>, lBegin: nat, j: nat, at: nat)
    requires lBegin <= at && at + 4 <= |src| && j + 4 <= |src|
    ensures var m := FindN(src, lBegin, j, at, Common(src, at, j));
            if j < at && SameThree(src, j, at) && at - j <= MAX_DISTANCE then
              && Verified(src, m, lBegin, at) && m.D == at - j
              && m.K == m.M - (if m.D < 0x600 then 2 else 3)
              && (m.mEnd + 4 < |src| ==> !Same(src, m.mEnd, m.D))
            else m == NO_MATCH
  {
    var n := Common(src, at, j);
    CommonThree(src, at, j);
    if n >= 3 && j < at {
      CommonRepeats(src, at, at, at - j);
      ForwardRepeats(src, at, at + n, at - j, n);
      BackRepeats(src, lBegin, at, at - j, Forward(src, at + n, at - j, n));
    }
  }

  /** Keeps the better of two candidates: higher score, or equal score and reaching further. */
  function Better(best: MatchInfo, candidate: MatchInfo): MatchInfo {
    if candidate.K > best.K || (candidate.K == best.K && candidate.mEnd > best.mEnd + 1) then candidate else best
  }

  // ---------------------------------------------------------------- the search state

  /** The last four positions with one hash, latest first. */
  type Bucket = b: seq<nat> | |b| == 4 witness [0, 0, 0, 0]

  datatype State = State(
    table: seq<Bucket>, pos: nat, lit: nat, dPrev: nat, pending: MatchInfo, ops: seq<Op>)

  function Initial(): State {
    State(seq(HASH_VALUES, _ => [0, 0, 0, 0]), 0, 0, 0, NO_MATCH, [])
  }

  /** The best match among the first k positions of a bucket. */
  function BestOf(src: seq<byte>, lit: nat, at: nat, b: Bucket, k: nat): MatchInfo
    requires k <= 4 && at + 4 <= |src|
    requires forall i :: 0 <= i < 4 ==> b[i] + 4 <= |src|
  {
    if k == 0 then NO_MATCH
    else
      var best, m := BestOf(src, lit, at, b, k - 1), FindN(src, lit, b[k - 1], at, Common(src, at, b[k - 1]));
      if m.M != 0 then Better(best, m) else best
  }

  /** The best match at a position: in the bucket, or at the distance of the last match, which is worth one more. */
  function Incoming(src: seq<byte>, lit: nat, at: nat, dPrev: nat, b: Bucket): MatchInfo
    requires at + 4 <= |src| && dPrev <= at
    requires forall i :: 0 <= i < 4 ==> b[i] + 4 <= |src|
  {
    var best := BestOf(src, lit, at, b, 4);
    if dPrev == 0 then best
    else
      var m := FindN(src, lit, at - dPrev, at, Common(src, at, at - dPrev));
      if m.M != 0 then Better(best, m.(K := m.M - 1)) else best
  }

  function Slice(src: seq<byte>, a: nat, b: nat): seq<byte> {
    if a <= b <= |src| then src[a..b] else []
  }

  function WithLiteral(src: seq<byte>, s: State, L: nat): State {
    s.(lit := s.lit + L, ops := s.ops + [Literals(Slice(src, s.lit, s.lit + L))])
  }

  function WithMatch(src: seq<byte>, s: State, m: MatchInfo): State {
    s.(lit := m.mEnd, dPrev := m.D, ops := s.ops + [Triplet(Slice(src, s.lit, m.mBegin), m.M, m.D)])
  }

  /** The lazy rule. */
  function Decided(src: seq<byte>, s: State, m: MatchInfo): State {
    if m.M == 0 then
      if s.pos < s.lit + MAX_BACKLOG then s
      else if s.pending.M != 0 then WithMatch(src, s, s.pending).(pending := NO_MATCH)
      else WithLiteral(src, s, 271)
    else if s.pending.M == 0 then s.(pending := m)
    else if s.pending.mEnd <= m.mBegin then WithMatch(src, s, s.pending).(pending := m)
    else WithMatch(src, s, if m.K > s.pending.K then m else s.pending).(pending := NO_MATCH)
  }

  // ---------------------------------------------------------------- what the search keeps

  /** The exact backlog the encoder can build up: 272 literals before a match, 280 at the end. */
  ghost predicate BoundedRuns(ops: seq<Op>) {
    forall op <- ops :: |op.p| <= if op.Triplet? then 272 else 280
  }

  /** ops replay to the source before pos, and d is their last distance. */
  ghost predicate ParseOf(src: seq<byte>, pos: nat, ops: seq<Op>, d: nat) {
    pos <= |src| && ValidOps(ops) && BoundedRuns(ops) && LastD(ops) == d && Replay(ops) == src[..pos]
  }

  /** The same, as a fact to pass around. */
  ghost predicate Emitted(src: seq<byte>, pos: nat, ops: seq<Op>, d: nat) {
    pos <= |src| && forall o: seq<Op> :: o == ops ==> ParseOf(src, pos, o, d)
  }

  lemma AppendLiteral(src: seq<byte>, pos: nat, ops: seq<Op>, d: nat, L: nat)
    requires Emitted(src, pos, ops, d) && pos + L <= |src| && L <= 280
    ensures Emitted(src, pos + L, ops + [Literals(src[pos..pos + L])], d)
  {
    assert ParseOf(src, pos, ops, d);
    var p := src[pos..pos + L];
    assert Init(ops + [Literals(p)]) == ops;
    assert src[..pos] + p == src[..pos + L];
  }

  lemma AppendTriplet(src: seq<byte>, pos: nat, ops: seq<Op>, d: nat, m: MatchInfo, at: nat)
    requires Emitted(src, pos, ops, d) && Verified(src, m, pos, at) && m.mBegin - pos <= 272
    ensures Emitted(src, m.mEnd, ops + [Triplet(src[pos..m.mBegin], m.M, m.D)], m.D)
  {
    assert ParseOf(src, pos, ops, d);
    var p := src[pos..m.mBegin];
    assert Init(ops + [Triplet(p, m.M, m.D)]) == ops;
    assert src[..pos] + p == src[..m.mBegin];
    CopyRebuilds(src, m.mBegin, m.D, m.M);
  }

  /** A position stays in the bucket of its word for at least four turns. */
  ghost predicate Held(src: seq<byte>, table: seq<Bucket>, j: nat, pos: nat)
    requires j + 4 <= |src| && |table| == HASH_VALUES && j < pos <= j + 4
  {
    HeldIn(table[Hash3(Load32(src, j))], j, pos - j)
  }

  /** Position j is among the n latest of a bucket. */
  ghost predicate HeldIn(b: Bucket, j: nat, n: nat) {
    exists k :: 0 <= k < n && k < 4 && b[k] == j
  }

  /** Every bucket holds positions not after pos, and the last four positions are still in theirs. */
  ghost predicate TableOk(src: seq<byte>, table: seq<Bucket>, pos: nat) {
    && pos + 4 <= |src| && |table| == HASH_VALUES
    && (forall h, k :: 0 <= h < HASH_VALUES && 0 <= k < 4 ==> table[h][k] <= pos)
    && forall j: nat :: j < pos && pos <= j + 4 ==> Held(src, table, j, pos)
  }

  /** The pending match, if any, was verified at a position before pos and lies past all emitted bytes. */
  ghost predicate PendingOk(src: seq<byte>, s: State) {
    s.pending.M != 0 ==> exists at: nat :: at < s.pos && Verified(src, s.pending, s.lit, at)
  }

  /**
   * What every turn keeps: the operations replay to exactly the source before lit, the pending match is a
   * verified copy past it, and the backlog is at most 271 bytes, or 272 with a match pending.
   */
  ghost predicate Ready(src: seq<byte>, s: State) {
    && Emitted(src, s.lit, s.ops, s.dPrev) && PendingOk(src, s) && s.dPrev <= s.pos
    && s.pos <= s.lit + (if s.pending.M != 0 then 272 else 271)
    && (s.pos < s.lit ==> s.pending.M == 0)
  }

  ghost predicate Valid(src: seq<byte>, s: State) {
    s.pos + MIN_MARGIN <= |src| && TableOk(src, s.table, s.pos) && Ready(src, s)
  }

  /** A match among the candidates at a position is a verified copy. */
  lemma {:induction false} BestOfVerified(src: seq<byte>, lit: nat, at: nat, b: Bucket, k: nat)
    requires k <= 4 && lit <= at && at + 4 <= |src| && forall i :: 0 <= i < 4 ==> b[i] <= at
    ensures FromBucket(src, lit, at, BestOf(src, lit, at, b, k))
  {
    if k == 0 {
    } else {
      BestOfVerified(src, lit, at, b, k - 1);
      FindNVerified(src, lit, b[k - 1], at);
    }
  }

  /** No match, or a verified copy with the score of a match from the table. */
  ghost predicate FromBucket(src: seq<byte>, lit: nat, at: nat, m: MatchInfo) {
    if m.M == 0 then m == NO_MATCH
    else Verified(src, m, lit, at) && m.K == m.M - (if m.D < 0x600 then 2 else 3)
  }

  /** It is at least as good as each of them. */
  lemma {:induction false} BestOfBest(src: seq<byte>, lit: nat, at: nat, b: Bucket, k: nat, i: nat)
    requires i < k <= 4 && lit <= at && at + 4 <= |src| && forall i :: 0 <= i < 4 ==> b[i] <= at
    requires b[i] < at && SameThree(src, b[i], at) && at - b[i] <= MAX_DISTANCE
    ensures BestOf(src, lit, at, b, k).M != 0
    ensures BestOf(src, lit, at, b, k).K >= FindN(src, lit, b[i], at, Common(src, at, b[i])).K
  {
    BestOfVerified(src, lit, at, b, k - 1);
    FindNVerified(src, lit, b[k - 1], at);
    if i == k - 1 {
    } else {
      BestOfBest(src, lit, at, b, k - 1, i);
    }
  }

  lemma IncomingVerified(src: seq<byte>, lit: nat, at: nat, dPrev: nat, b: Bucket)
    requires lit <= at && at + 4 <= |src| && dPrev <= at && forall i :: 0 <= i < 4 ==> b[i] <= at
    ensures var m := Incoming(src, lit, at, dPrev, b);
            if m.M == 0 then m == NO_MATCH else Verified(src, m, lit, at) && m.K <= m.M - 1
    ensures dPrev == 0 ==> Incoming(src, lit, at, dPrev, b) == BestOf(src, lit, at, b, 4)
  {
    BestOfVerified(src, lit, at, b, 4);
    if dPrev != 0 { FindNVerified(src, lit, at - dPrev, at); }
  }

  lemma EmitKeeps(src: seq<byte>, s: State, m: MatchInfo, at: nat)
    requires Ready(src, s) && Verified(src, m, s.lit, at) && at <= s.pos && m.mBegin <= s.lit + 272
    ensures var s' := WithMatch(src, s, m);
            Emitted(src, s'.lit, s'.ops, s'.dPrev) && s'.dPrev <= s.pos && s'.lit == m.mEnd >= s.lit + 3
  {
    AppendTriplet(src, s.lit, s.ops, s.dPrev, m, at);
  }

  lemma PendingEmitKeeps(src: seq<byte>, s: State)
    requires Ready(src, s) && s.pending.M != 0
    ensures var s' := WithMatch(src, s, s.pending);
            Emitted(src, s'.lit, s'.ops, s'.dPrev) && s'.dPrev <= s.pos && s'.lit == s.pending.mEnd >= s.lit + 3
  {
    var at: nat :| at < s.pos && Verified(src, s.pending, s.lit, at);
    EmitKeeps(src, s, s.pending, at);
  }

  /** The lazy rule keeps the invariant: every backlog within 271 literals, 272 with a match pending. */
  lemma DecidedKeeps(src: seq<byte>, s: State, m: MatchInfo)
    requires Ready(src, s) && s.lit <= s.pos < |src|
    requires m.M == 0 || Verified(src, m, s.lit, s.pos)
    ensures Ready(src, Decided(src, s, m).(pos := s.pos + 1))
  {
    var s' := Decided(src, s, m).(pos := s.pos + 1);
    if m.M == 0 {
      if s.pos >= s.lit + MAX_BACKLOG {
        if s.pending.M != 0 { PendingEmitKeeps(src, s); } else { AppendLiteral(src, s.lit, s.ops, s.dPrev, 271); }
      } else if s.pending.M != 0 {
        var at: nat :| at < s.pos && Verified(src, s.pending, s.lit, at);
        assert at < s'.pos && Verified(src, s'.pending, s'.lit, at);
      }
    } else if s.pending.M == 0 {
      assert s.pos < s'.pos && Verified(src, s'.pending, s'.lit, s.pos);
    } else if s.pending.mEnd <= m.mBegin {
      PendingEmitKeeps(src, s);
      assert s.pos < s'.pos && Verified(src, s'.pending, s'.lit, s.pos);
    } else if m.K > s.pending.K {
      EmitKeeps(src, s, m, s.pos);
    } else {
      PendingEmitKeeps(src, s);
    }
  }

  // ---------------------------------------------------------------- turns and runs

  function BucketAt(src: seq<byte>, s: State): Bucket
    requires s.pos + 4 <= |src| && |s.table| == HASH_VALUES
  {
    s.table[Hash3(Load32(src, s.pos))]
  }

  /** The table with position pos at the front of its bucket. */
  function Remember(src: seq<byte>, table: seq<Bucket>, pos: nat): (t: seq<Bucket>)
    requires pos + 4 <= |src| && |table| == HASH_VALUES
    ensures |t| == HASH_VALUES
  {
    var h := Hash3(Load32(src, pos));
    table[h := [pos, table[h][0], table[h][1], table[h][2]]]
  }

  /** What a turn emits and leaves pending: nothing while inside an emitted match. */
  function Considered(src: seq<byte>, s: State): (s': State)
    requires s.pos + MIN_MARGIN < |src| && TableOk(src, s.table, s.pos) && s.dPrev <= s.pos
    ensures s'.pos == s.pos
  {
    if s.pos < s.lit then s else Decided(src, s, Incoming(src, s.lit, s.pos, s.dPrev, BucketAt(src, s)))
  }

  /** One turn of the main loop. */
  function Turn(src: seq<byte>, s: State): (s': State)
    requires s.pos + MIN_MARGIN < |src| && TableOk(src, s.table, s.pos) && s.dPrev <= s.pos
    ensures s'.pos == s.pos + 1
  {
    Considered(src, s).(table := Remember(src, s.table, s.pos), pos := s.pos + 1)
  }

  lemma RememberKeeps(src: seq<byte>, table: seq<Bucket>, pos: nat)
    requires TableOk(src, table, pos) && pos + 5 <= |src|
    ensures TableOk(src, Remember(src, table, pos), pos + 1)
  {
    var t, next := Remember(src, table, pos), pos + 1;
    forall j: nat | j < next && next <= j + 4
      ensures Held(src, t, j, next)
    {
      var h := Hash3(Load32(src, j));
      if j < pos {
        assert Held(src, table, j, pos);
        HeldShifts(table[h], j, pos - j, pos);
      } else {
        assert t[h][0] == j;
      }
    }
  }

  lemma HeldShifts(b: Bucket, j: nat, n: nat, pos: nat)
    requires HeldIn(b, j, n) && n < 4
    ensures HeldIn(b, j, n + 1) && HeldIn([pos, b[0], b[1], b[2]], j, n + 1)
  {
    var k :| 0 <= k < n && k < 4 && b[k] == j;
    assert [pos, b[0], b[1], b[2]][k + 1] == j;
  }

  /** One turn keeps the invariant. */
  lemma TurnKeeps(src: seq<byte>, s: State)
    requires Valid(src, s) && s.pos + MIN_MARGIN < |src|
    ensures Valid(src, Turn(src, s))
  {
    RememberKeeps(src, s.table, s.pos);
    ReadyConsidered(src, s);
    var next, table := Considered(src, s), Remember(src, s.table, s.pos);
    ValidWith(src, next, table);
    assert Turn(src, s) == next.(table := table, pos := s.pos + 1);
  }

  lemma ReadyConsidered(src: seq<byte>, s: State)
    requires Valid(src, s) && s.pos + MIN_MARGIN < |src|
    ensures Ready(src, Considered(src, s).(pos := s.pos + 1))
  {
    if s.pos >= s.lit {
      var b := BucketAt(src, s);
      IncomingVerified(src, s.lit, s.pos, s.dPrev, b);
      DecidedKeeps(src, s, Incoming(src, s.lit, s.pos, s.dPrev, b));
    }
  }

  lemma ValidWith(src: seq<byte>, s: State, t: seq<Bucket>)
    requires Ready(src, s.(pos := s.pos + 1)) && TableOk(src, t, s.pos + 1) && s.pos + MIN_MARGIN < |src|
    ensures Valid(src, s.(table := t, pos := s.pos + 1))
  {
    var s1, s2 := s.(pos := s.pos + 1), s.(table := t, pos := s.pos + 1);
    if s1.pending.M != 0 {
      var at: nat :| at < s1.pos && Verified(src, s1.pending, s1.lit, at);
      assert at < s2.pos && Verified(src, s2.pending, s2.lit, at);
    }
  }

  /** The main loop up to position end. */
  ghost function Run(src: seq<byte>, s: State, end: nat): State
    requires Valid(src, s) && end + MIN_MARGIN <= |src|
    decreases end - s.pos
  {
    if s.pos < end then
      TurnKeeps(src, s);
      Run(src, Turn(src, s), end)
    else s
  }

  lemma {:induction false} RunKeeps(src: seq<byte>, s: State, end: nat)
    requires Valid(src, s) && s.pos <= end && end + MIN_MARGIN <= |src|
    ensures Valid(src, Run(src, s, end)) && Run(src, s, end).pos == end
    decreases end - s.pos
  {
    if s.pos == end {
    } else {
      TurnKeeps(src, s);
      RunKeeps(src, Turn(src, s), end);
    }
  }

  lemma InitialValid(src: seq<byte>)
    requires |src| >= MIN_SRC_SIZE
    ensures Valid(src, Initial())
  {
  }

  /** The state when every position has been searched. */
  ghost function Searched(src: seq<byte>): State {
    if |src| >= MIN_SRC_SIZE then
      InitialValid(src);
      Run(src, Initial(), |src| - MIN_MARGIN)
    else Initial()
  }

  function WithRest(src: seq<byte>, s: State): seq<Op> {
    if s.lit < |src| then WithLiteral(src, s, |src| - s.lit).ops else s.ops
  }

  /** The operations lzvnEncode and its trailing literals issue for a source. */
  ghost function EncodeOps(src: seq<byte>): seq<Op> {
    WithRest(src, Searched(src))
  }

  lemma SearchedEmitted(src: seq<byte>)
    ensures var s := Searched(src); Emitted(src, s.lit, s.ops, s.dPrev) && |src| <= s.lit + 280
  {
    if |src| >= MIN_SRC_SIZE {
      InitialValid(src);
      RunKeeps(src, Initial(), |src| - MIN_MARGIN);
    }
  }

  /**
   * Parse replay: for every input the operations issued replay to exactly the input. No match carries more than
   * 272 literals and no literal run exceeds 280 bytes, although a match can be pending all the while.
   */
  lemma EncodeOpsReplay(src: seq<byte>)
    ensures var ops := EncodeOps(src); ValidOps(ops) && Replay(ops) == src && BoundedRuns(ops)
  {
    var s := Searched(src);
    SearchedEmitted(src);
    if s.lit < |src| { AppendLiteral(src, s.lit, s.ops, s.dPrev, |src| - s.lit); }
    assert ParseOf(src, |src|, EncodeOps(src), s.dPrev) && src[..|src|] == src;
  }
}
