/** Which operations the LZVN search issues: the best match of a position, the lazy rule, and the size of its code. */
module LzvnParsing {
  import opened Bits
  import opened Lz
  import opened LzvnEmit
  import opened LzvnSearch

  // ---------------------------------------------------------------- one candidate

  /** Extension backwards stops only at lBegin or at a difference. */
  lemma {:induction false} BackMaximal(src: seq<byte>, lBegin: nat, mBegin: nat, D: nat)
    requires lBegin <= mBegin <= |src| && D <= mBegin
    ensures var b := Back(src, lBegin, mBegin, D); lBegin <= b && (b == lBegin || !Same(src, b - 1, D))
    decreases mBegin
  {
    if mBegin > lBegin && Same(src, mBegin - 1, D) {
      BackMaximal(src, lBegin, mBegin - 1, D);
    }
  }

  /** The three bytes at j agree with those at a later position within reach. */
  predicate Usable(src: seq<byte>, j: nat, at: nat)
    requires j + 3 <= |src| && at + 3 <= |src|
  {
    j < at && at - j <= 65535 && SameThree(src, j, at)
  }

  function MatchWith(src: seq<byte>, lit: nat, j: nat, at: nat): MatchInfo
    requires at + 4 <= |src| && j + 4 <= |src|
  {
    FindN(src, lit, j, at, Common(src, at, j))
  }

  /** A usable position gives a match that repeats it and cannot be extended backwards. */
  lemma {:induction false} MatchIsMaximal(src: seq<byte>, lit: nat, j: nat, at: nat)
    requires lit <= at && at + 4 <= |src| && j + 4 <= |src|
    ensures var m := MatchWith(src, lit, j, at);
      if Usable(src, j, at) then
        && Verified(src, m, lit, at) && m.D == at - j && m.K == m.M - (if m.D < 1536 then 2 else 3)
        && (m.mBegin == lit || !Same(src, m.mBegin - 1, m.D)) && (m.mEnd + 4 < |src| ==> !Same(src, m.mEnd, m.D))
      else m == NO_MATCH
  {
    FindNVerified(src, lit, j, at);
    CommonThree(src, at, j);
    if Usable(src, j, at) { BackMaximal(src, lit, at, at - j); }
  }

  // ---------------------------------------------------------------- the best at a position

  /** m is the match with entry i of a bucket. */
  ghost predicate FromEntry(src: seq<byte>, lit: nat, at: nat, b: Bucket, i: nat, m: MatchInfo)
    requires at + 4 <= |src| && forall i :: 0 <= i < 4 ==> b[i] <= at
  {
    i < 4 && Usable(src, b[i], at) && m == MatchWith(src, lit, b[i], at)
  }

  /** m is the match at the previous distance, which scores one more than one byte less than its length. */
  ghost predicate AtPrevious(src: seq<byte>, lit: nat, at: nat, dPrev: nat, m: MatchInfo)
    requires at + 4 <= |src| && dPrev <= at
  {
    && 1 <= dPrev && Usable(src, at - dPrev, at)
    && m == MatchWith(src, lit, at - dPrev, at).(K := MatchWith(src, lit, at - dPrev, at).M - 1)
  }

  /** No candidate of the bucket scores more than m. */
  ghost predicate BeatsEntries(src: seq<byte>, lit: nat, at: nat, b: Bucket, m: MatchInfo)
    requires at + 4 <= |src| && forall i :: 0 <= i < 4 ==> b[i] <= at
  {
    forall i: nat, c :: FromEntry(src, lit, at, b, i, c) ==> m.M > 0 && c.K <= m.K
  }

  /** No candidate scores more than m, and m is one of them, or there are none. */
  ghost predicate IsBest(src: seq<byte>, lit: nat, at: nat, dPrev: nat, b: Bucket, m: MatchInfo)
    requires at + 4 <= |src| && dPrev <= at && forall i :: 0 <= i < 4 ==> b[i] <= at
  {
    && BeatsEntries(src, lit, at, b, m)
    && (forall c :: AtPrevious(src, lit, at, dPrev, c) ==> m.M > 0 && c.K <= m.K)
    && (m == NO_MATCH || AtPrevious(src, lit, at, dPrev, m) || exists i: nat :: FromEntry(src, lit, at, b, i, m))
  }

  lemma {:induction false} BestOfIsEntry(src: seq<byte>, lit: nat, at: nat, b: Bucket, k: nat)
    requires k <= 4 && lit <= at && at + 4 <= |src| && forall i :: 0 <= i < 4 ==> b[i] <= at
    ensures var m := BestOf(src, lit, at, b, k);
      m == NO_MATCH || (m.M >= 3 && exists i: nat :: FromEntry(src, lit, at, b, i, m))
  {
    if k == 0 {
    } else {
      BestOfIsEntry(src, lit, at, b, k - 1);
      MatchIsMaximal(src, lit, b[k - 1], at);
      var c := MatchWith(src, lit, b[k - 1], at);
      if Usable(src, b[k - 1], at) { assert FromEntry(src, lit, at, b, k - 1, c); }
    }
  }

  lemma {:induction false} BestOfBeats(src: seq<byte>, lit: nat, at: nat, b: Bucket, i: nat, c: MatchInfo)
    requires lit <= at && at + 4 <= |src| && (forall i :: 0 <= i < 4 ==> b[i] <= at)
    requires FromEntry(src, lit, at, b, i, c)
    ensures var m := BestOf(src, lit, at, b, 4); m.M > 0 && c.K <= m.K
  {
    BestOfBest(src, lit, at, b, 4, i);
  }

  lemma {:induction false} BucketBest(src: seq<byte>, lit: nat, at: nat, b: Bucket) returns (m: MatchInfo)
    requires lit <= at && at + 4 <= |src| && forall i :: 0 <= i < 4 ==> b[i] <= at
    ensures m == BestOf(src, lit, at, b, 4) && BeatsEntries(src, lit, at, b, m)
    ensures m == NO_MATCH || (m.M >= 3 && exists i: nat :: FromEntry(src, lit, at, b, i, m))
  {
    m := BestOf(src, lit, at, b, 4);
    BestOfIsEntry(src, lit, at, b, 4);
    forall i: nat, c | FromEntry(src, lit, at, b, i, c)
      ensures m.M > 0 && c.K <= m.K
    {
      BestOfBeats(src, lit, at, b, i, c);
    }
  }

  lemma {:induction false} PreviousCandidate(src: seq<byte>, lit: nat, at: nat, dPrev: nat, best: MatchInfo,
                                             m: MatchInfo)
    requires lit <= at && at + 4 <= |src| && 1 <= dPrev <= at
    requires var c := MatchWith(src, lit, at - dPrev, at);
             m == if c.M != 0 then Better(best, c.(K := c.M - 1)) else best
    ensures m == best || AtPrevious(src, lit, at, dPrev, m)
    ensures m.K >= best.K && (best.M > 0 ==> m.M > 0)
    ensures forall c :: AtPrevious(src, lit, at, dPrev, c) && (best == NO_MATCH || best.M > 0) ==>
      m.M > 0 && c.K <= m.K
  {
    MatchIsMaximal(src, lit, at - dPrev, at);
  }

  lemma {:induction false} IncomingIsBest(src: seq<byte>, lit: nat, at: nat, dPrev: nat, b: Bucket)
    requires lit <= at && at + 4 <= |src| && dPrev <= at && forall i :: 0 <= i < 4 ==> b[i] <= at
    ensures IsBest(src, lit, at, dPrev, b, Incoming(src, lit, at, dPrev, b))
  {
    var best := BucketBest(src, lit, at, b);
    if dPrev != 0 { PreviousCandidate(src, lit, at, dPrev, best, Incoming(src, lit, at, dPrev, b)); }
  }

  // ---------------------------------------------------------------- one turn

  /** t is s after emitting the literals before m, and m. */
  ghost predicate Emits(src: seq<byte>, s: State, m: MatchInfo, t: State) {
    && s.lit <= m.mBegin <= |src| && t.ops == s.ops + [Triplet(src[s.lit..m.mBegin], m.M, m.D)]
    && t.lit == m.mEnd && t.dPrev == m.D
  }

  ghost predicate EmitsNothing(s: State, t: State) {
    t.ops == s.ops && t.lit == s.lit && t.dPrev == s.dPrev
  }

  /**
   * What a turn makes of s when m is the best match at its position: without one, a backlog of 271 bytes sends the
   * pending match, or 271 literals; otherwise m waits if nothing is pending or the pending match ends before it,
   * which then is sent; and of two that overlap the one with the higher score is sent, the earlier if they are equal.
   */
  ghost predicate LazyRule(src: seq<byte>, s: State, m: MatchInfo, t: State) {
    var p := s.pending;
    if m.M == 0 && s.pos - s.lit < 271 then EmitsNothing(s, t) && t.pending == p
    else if m.M == 0 && p.M != 0 then Emits(src, s, p, t) && t.pending == NO_MATCH
    else if m.M == 0 then
      && s.lit + 271 <= |src| && t.ops == s.ops + [Literals(src[s.lit..s.lit + 271])] && t.lit == s.lit + 271
      && t.dPrev == s.dPrev && t.pending == p
    else if p.M == 0 then EmitsNothing(s, t) && t.pending == m
    else if p.mEnd <= m.mBegin then Emits(src, s, p, t) && t.pending == m
    else if m.K > p.K then Emits(src, s, m, t) && t.pending == NO_MATCH
    else Emits(src, s, p, t) && t.pending == NO_MATCH
  }

  /** The best match at the position of s. */
  function Best(src: seq<byte>, s: State): MatchInfo
    requires s.pos + MIN_MARGIN < |src| && TableOk(src, s.table, s.pos) && s.dPrev <= s.pos
  {
    Incoming(src, s.lit, s.pos, s.dPrev, BucketAt(src, s))
  }

  lemma {:induction false} TurnRule(src: seq<byte>, s: State)
    requires Valid(src, s) && s.pos + MIN_MARGIN < |src|
    ensures var t := Turn(src, s);
      && t.pos == s.pos + 1 && t.table == Remember(src, s.table, s.pos)
      && if s.pos < s.lit then EmitsNothing(s, t) && t.pending == s.pending
         else LazyRule(src, s, Best(src, s), t)
  {
    if s.pos >= s.lit {
      IncomingVerified(src, s.lit, s.pos, s.dPrev, BucketAt(src, s));
    }
  }

  // ---------------------------------------------------------------- the whole search

  /** m is the best match at the position of s, from the bucket of its word. */
  ghost predicate IsBestAt(src: seq<byte>, s: State, m: MatchInfo) {
    && s.pos + 4 <= |src| && |s.table| == HASH_VALUES && s.dPrev <= s.pos
    && var b := BucketAt(src, s);
       (forall i :: 0 <= i < 4 ==> b[i] <= s.pos) && IsBest(src, s.lit, s.pos, s.dPrev, b, m)
  }

  /** The turn at position n leads from s to t; inside an emitted match it only notes the position. */
  ghost predicate Turned(src: seq<byte>, n: nat, s: State, m: MatchInfo, t: State) {
    && n + 8 < |src| && s.pos == n && t.pos == n + 1
    && |s.table| == HASH_VALUES && t.table == Remember(src, s.table, n)
    && if n < s.lit then EmitsNothing(s, t) && t.pending == s.pending
       else IsBestAt(src, s, m) && LazyRule(src, s, m, t)
  }

  /** The same of the operations alone. */
  ghost predicate Ruled(src: seq<byte>, n: nat, s: State, m: MatchInfo, t: State) {
    if n < s.lit then EmitsNothing(s, t) && t.pending == s.pending else LazyRule(src, s, m, t)
  }

  /** The states before and after every turn from position at on, and each turn's best match. */
  ghost predicate SearchRun(src: seq<byte>, at: nat, ss: seq<State>, ms: seq<MatchInfo>) {
    |ss| == |ms| + 1 && forall n :: 0 <= n < |ms| ==> Turned(src, at + n, ss[n], ms[n], ss[n + 1])
  }

  lemma {:induction false} TurnIsTurned(src: seq<byte>, s: State) returns (m: MatchInfo)
    requires Valid(src, s) && s.pos + MIN_MARGIN < |src|
    ensures Turned(src, s.pos, s, m, Turn(src, s))
  {
    m := NO_MATCH;
    TurnRule(src, s);
    if s.pos >= s.lit {
      m := Best(src, s);
      IncomingIsBest(src, s.lit, s.pos, s.dPrev, BucketAt(src, s));
    }
  }

  lemma {:induction false} RunFrom(src: seq<byte>, at: nat, s: State, m: MatchInfo, ss: seq<State>, ms: seq<MatchInfo>)
    requires SearchRun(src, at + 1, ss, ms) && Turned(src, at, s, m, ss[0])
    ensures SearchRun(src, at, [s] + ss, [m] + ms)
  {
    var ss', ms' := [s] + ss, [m] + ms;
    forall n | 0 <= n < |ms'|
      ensures Turned(src, at + n, ss'[n], ms'[n], ss'[n + 1])
    {
      if n > 0 {
        assert Turned(src, at + 1 + (n - 1), ss[n - 1], ms[n - 1], ss[n]);
        assert ss'[n] == ss[n - 1] && ms'[n] == ms[n - 1] && ss'[n + 1] == ss[n];
      }
    }
  }

  /** The search from s ends in r, as a fact to pass around. */
  ghost predicate EndsIn(src: seq<byte>, s: State, r: State) {
    && s.pos + MIN_MARGIN <= |src|
    && forall o: State :: o == s ==> Valid(src, o) && Run(src, o, |src| - MIN_MARGIN) == r
  }

  lemma {:induction false} OneTurn(src: seq<byte>, s: State, r: State) returns (m: MatchInfo, t: State)
    requires EndsIn(src, s, r) && s.pos + MIN_MARGIN < |src|
    ensures Turned(src, s.pos, s, m, t) && EndsIn(src, t, r) && t.pos == s.pos + 1
  {
    assert Valid(src, s) && Run(src, s, |src| - MIN_MARGIN) == r;
    TurnKeeps(src, s);
    m := TurnIsTurned(src, s);
    t := Turn(src, s);
  }

  lemma {:induction false} NoTurn(src: seq<byte>, s: State, r: State)
    requires EndsIn(src, s, r) && s.pos + MIN_MARGIN == |src|
    ensures s == r
  {
    assert Valid(src, s) && Run(src, s, |src| - MIN_MARGIN) == r;
  }

  lemma {:induction false} RunIsSearch(src: seq<byte>, s: State, r: State) returns (ss: seq<State>, ms: seq<MatchInfo>)
    requires EndsIn(src, s, r)
    ensures SearchRun(src, s.pos, ss, ms) && ss[0] == s && ss[|ms|] == r && s.pos + |ms| == |src| - MIN_MARGIN
    decreases |src| - s.pos
  {
    if s.pos == |src| - MIN_MARGIN {
      NoTurn(src, s, r);
      ss, ms := [s], [];
    } else {
      var m, t := OneTurn(src, s, r);
      var later, best := RunIsSearch(src, t, r);
      RunFrom(src, s.pos, s, m, later, best);
      ss, ms := [s] + later, [m] + best;
    }
  }

  /** The operations of a source are those after every position but the last eight was searched, and the rest. */
  ghost predicate Issues(src: seq<byte>, ss: seq<State>, ms: seq<MatchInfo>, ops: seq<Op>) {
    && SearchRun(src, 0, ss, ms) && |ms| == |src| - 8 && ss[0] == Initial()
    && var s := ss[|ms|];
       if s.lit < |src| then ops == s.ops + [Literals(src[s.lit..])] else ops == s.ops
  }

  /** What the encoder does with a source, turn by turn; a match still pending at the end is lost. */
  lemma {:induction false} SearchIsLazy(src: seq<byte>) returns (ss: seq<State>, ms: seq<MatchInfo>)
    requires |src| >= MIN_MARGIN
    ensures Issues(src, ss, ms, EncodeOps(src))
  {
    InitialValid(src);
    var s := Searched(src);
    ss, ms := RunIsSearch(src, Initial(), s);
    SearchedEmitted(src);
    if s.lit < |src| { assert src[s.lit..s.lit + (|src| - s.lit)] == src[s.lit..]; }
  }

  // ---------------------------------------------------------------- where the candidates come from

  /** The positions before n whose first three bytes have hash h, latest first. */
  function Recent(src: seq<byte>, n: nat, h: nat): seq<nat>
    requires n + 3 <= |src|
  {
    if n == 0 then []
    else if Hash3(Load32(src, n - 1)) == h then [n - 1] + Recent(src, n - 1, h) else Recent(src, n - 1, h)
  }

  /** The hash of three bytes: x + 2^6 x + 2^12 x, without its low 12 bits and above 28. */
  lemma {:induction false} HashOfThree(v: nat)
    requires v < 0x1_0000_0000
    ensures var x := v % 16777216; Hash3(v) == (x + 64 * x + 4096 * x) % 4294967296 / 4096 % 65536
  {
  }

  /** The latest four of a list, filled up with zeros. */
  function LatestFour(s: seq<nat>): (r: Bucket) {
    (s + [0, 0, 0, 0])[..4]
  }

  lemma {:induction false} ShiftIn(x: nat, s: seq<nat>)
    ensures var b := LatestFour(s); LatestFour([x] + s) == [x, b[0], b[1], b[2]]
  {
  }

  /** Every bucket holds the four latest positions with its hash. */
  lemma {:induction false} BucketHolds(src: seq<byte>, ss: seq<State>, ms: seq<MatchInfo>, n: nat, h: nat)
    requires SearchRun(src, 0, ss, ms) && ss[0] == Initial() && n <= |ms| && n + 3 <= |src| && h < HASH_VALUES
    ensures |ss[n].table| == HASH_VALUES && ss[n].table[h] == LatestFour(Recent(src, n, h))
  {
    if n == 0 {
    } else {
      BucketHolds(src, ss, ms, n - 1, h);
      assert Turned(src, 0 + (n - 1), ss[n - 1], ms[n - 1], ss[n]);
      ShiftIn(n - 1, Recent(src, n - 1, h));
    }
  }

  // ---------------------------------------------------------------- the matches issued

  /** m is the best match of a position before n that is not inside an emitted match. */
  ghost predicate BestBefore(ss: seq<State>, ms: seq<MatchInfo>, n: nat, m: MatchInfo)
    requires n <= |ms| <= |ss|
  {
    exists k :: 0 <= k < n && m == ms[k] && ss[k].lit <= k
  }

  ghost predicate AllBest(ss: seq<State>, ms: seq<MatchInfo>, n: nat, ops: seq<Op>)
    requires n <= |ms| <= |ss|
  {
    forall op <- ops :: op.Triplet? ==> exists m :: BestBefore(ss, ms, n, m) && op.M == m.M && op.D == m.D
  }

  lemma {:induction false} EmitsBest(src: seq<byte>, ss: seq<State>, ms: seq<MatchInfo>, n: nat, s: State,
                                     m: MatchInfo, t: State)
    requires n <= |ms| <= |ss| && AllBest(ss, ms, n, s.ops) && BestBefore(ss, ms, n, m) && Emits(src, s, m, t)
    ensures AllBest(ss, ms, n, t.ops)
  {
  }

  lemma {:induction false} BestLater(ss: seq<State>, ms: seq<MatchInfo>, n: nat, ops: seq<Op>)
    requires n < |ms| <= |ss| && AllBest(ss, ms, n, ops)
    ensures AllBest(ss, ms, n + 1, ops)
  {
    forall op <- ops | op.Triplet?
      ensures exists m :: BestBefore(ss, ms, n + 1, m) && op.M == m.M && op.D == m.D
    {
      var m :| BestBefore(ss, ms, n, m) && op.M == m.M && op.D == m.D;
      assert BestBefore(ss, ms, n + 1, m);
    }
  }

  /** Every match issued is the best of some position, and so is the pending one. */
  lemma {:induction false} MatchesAreBest(src: seq<byte>, ss: seq<State>, ms: seq<MatchInfo>, n: nat)
    requires |ss| == |ms| + 1 && (forall k :: 0 <= k < |ms| ==> Ruled(src, k, ss[k], ms[k], ss[k + 1]))
    requires ss[0] == Initial() && n <= |ms|
    ensures AllBest(ss, ms, n, ss[n].ops) && (ss[n].pending.M != 0 ==> BestBefore(ss, ms, n, ss[n].pending))
  {
    if n == 0 {
    } else {
      var s, m, t := ss[n - 1], ms[n - 1], ss[n];
      MatchesAreBest(src, ss, ms, n - 1);
      BestLater(ss, ms, n - 1, s.ops);
      assert Ruled(src, n - 1, s, m, t);
      if s.pending.M != 0 { assert BestBefore(ss, ms, n, s.pending); }
      if s.lit <= n - 1 {
        assert BestBefore(ss, ms, n, m);
        RuleKeepsBest(src, ss, ms, n, s, m, t);
      }
    }
  }

  /** Every match a source's operations carry is the best of some position. */
  lemma {:induction false} IssuedAreBest(src: seq<byte>, ss: seq<State>, ms: seq<MatchInfo>, ops: seq<Op>)
    requires Issues(src, ss, ms, ops)
    ensures AllBest(ss, ms, |ms|, ops)
  {
    forall k | 0 <= k < |ms|
      ensures Ruled(src, k, ss[k], ms[k], ss[k + 1])
    {
      assert Turned(src, 0 + k, ss[k], ms[k], ss[k + 1]);
    }
    MatchesAreBest(src, ss, ms, |ms|);
  }

  lemma {:induction false} RuleKeepsBest(src: seq<byte>, ss: seq<State>, ms: seq<MatchInfo>, n: nat, s: State,
                                         m: MatchInfo, t: State)
    requires n <= |ms| <= |ss| && AllBest(ss, ms, n, s.ops) && LazyRule(src, s, m, t)
    requires (s.pending.M != 0 ==> BestBefore(ss, ms, n, s.pending)) && (m.M != 0 ==> BestBefore(ss, ms, n, m))
    ensures AllBest(ss, ms, n, t.ops) && (t.pending.M != 0 ==> BestBefore(ss, ms, n, t.pending))
  {
    if s.pending.M != 0 && Emits(src, s, s.pending, t) {
      EmitsBest(src, ss, ms, n, s, s.pending, t);
    } else if m.M != 0 && Emits(src, s, m, t) {
      EmitsBest(src, ss, ms, n, s, m, t);
    }
  }

  // ---------------------------------------------------------------- the size of the code

  /** Bytes of match-only opcodes for m further bytes: two for every 271, and for the rest one up to 15. */
  function FurtherSize(m: nat): nat {
    2 * (m / 271) + (if m % 271 == 0 then 0 else if m % 271 <= 15 then 1 else 2)
  }

  lemma {:induction false} TailSize(m: nat)
    ensures |TailBytes(m)| == FurtherSize(m)
  {
    if m > 271 {
      TailSize(m - 271);
      DivModUnique(m, 271, (m - 271) / 271 + 1, (m - 271) % 271);
    }
  }

  /**
   * The code of L literals and M bytes from D back: the literals, a byte or two in front of more than 3 or 15; a byte
   * for a repeated distance, two below 1536, three otherwise; and match-only opcodes for what that one does not carry,
   * which is up to 34 bytes with a distance between 1536 and 16383, and otherwise 10 less 2 for each literal with it.
   */
  lemma {:induction false} LmdSize(p: seq<byte>, M: nat, D: nat, dPrev: nat)
    requires 3 <= M && 1 <= D < 0x1_0000
    ensures var L := if |p| > 3 then 0 else |p|;
      var first := if M <= 10 - 2 * L || (M <= 34 && D != dPrev && 1536 <= D < 16384) then M else 10 - 2 * L;
      |LmdBytes(p, M, D, dPrev)|
        == |p| + (if |p| > 15 then 2 else if |p| > 3 then 1 else 0)
           + (if D == dPrev then 1 else if D < 1536 then 2 else 3) + FurtherSize(M - first)
  {
    TailSize(M - HeadLength(|Carried(p)|, M, D, dPrev));
  }
}
