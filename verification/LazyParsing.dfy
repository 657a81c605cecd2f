/** Which matches LZFSE's lazy search emits: every candidate but those inside another match or beaten by the next. */
module LazyParsing {
  import opened Bits
  import opened Records
  import opened FindMatches

  // ---------------------------------------------------------------- the best match at a position

  /** Entry k of a bucket holds the word x at an earlier position within reach of i. */
  predicate Usable(i: nat, x: nat, e: HashEntry, k: nat) {
    k < 4 && e.value[k] == x && e.pos[k] < i && i - e.pos[k] <= 262139
  }

  /** A longer match is better, and of two of one length the nearer. */
  predicate Better(f: Found, g: Found) {
    f.M > g.M || (f.M == g.M && f.D < g.D)
  }

  /** The match with entry k of a bucket. */
  function MatchWith(src: seq<byte>, i: nat, e: HashEntry, k: nat): Found
    requires i < |src| && k < 4 && e.pos[k] < i
  {
    Found(MatchLength(src, i, e.pos[k], 0), i - e.pos[k])
  }

  /** Nothing usable among the first k entries is better than f, and f is one of them unless none has three bytes. */
  ghost predicate IsBest(src: seq<byte>, i: nat, x: nat, e: HashEntry, k: nat, f: Found)
    requires i < |src| && k <= 4
  {
    && (forall j: nat :: j < k && Usable(i, x, e, j) && MatchWith(src, i, e, j).M >= 3 ==>
          !Better(MatchWith(src, i, e, j), f))
    && (f == Found(0, 0) || exists j: nat :: j < k && Usable(i, x, e, j) && f == MatchWith(src, i, e, j) && f.M >= 3)
  }

  lemma {:induction false} BestOfIsBest(src: seq<byte>, i: nat, x: nat, e: HashEntry, k: nat)
    requires i < |src| && k <= 4
    ensures IsBest(src, i, x, e, k, BestOf(src, i, x, e, k))
  {
    if k == 0 {
    } else {
      BestOfIsBest(src, i, x, e, k - 1);
      var f := BestOf(src, i, x, e, k);
      if Usable(i, x, e, k - 1) && f == MatchWith(src, i, e, k - 1) {
      } else {
        assert f == BestOf(src, i, x, e, k - 1);
      }
    }
  }

  /** The best match at the position of s, from the bucket of its word. */
  function Best(src: seq<byte>, s: State): Found
    requires s.i + 8 < |src| && |s.table| == ENCODE_HASH_VALUES
  {
    var x := Load32(src, s.i);
    BestOf(src, s.i, x, s.table[LzfseHash(x)], 4)
  }

  // ---------------------------------------------------------------- one turn

  /** The pending match as it would be emitted. */
  function AsMatch(s: State): Match
    requires s.pending.Pending?
  {
    Match(s.pending.pos, s.pending.pos - s.litStart, s.pending.M, s.pending.D)
  }

  /**
   * What a turn makes of s when f is the best match at its position: a pending match that ends there is emitted
   * first; then f is ignored if too short or inside an emitted match; it waits, in place of a pending match it beats,
   * or from 40 bytes on leaves at once; and if the pending match is at least as good that one leaves instead.
   */
  ghost predicate LazyRule(s: State, f: Found, t: State) {
    var ended := s.pending.Pending? && s.pending.pos + s.pending.M <= s.i;
    var waiting := s.pending.Pending? && !ended;
    var ms := if ended then s.ms + [AsMatch(s)] else s.ms;
    var litStart := if ended then s.pending.pos + s.pending.M else s.litStart;
    if f.M < 3 || s.i < litStart then
      && t.ms == ms && t.litStart == litStart && t.i == s.i + 1
      && t.pending == if waiting then s.pending else NoPending
    else if waiting && !Better(f, Found(s.pending.M, s.pending.D)) then
      && t.ms == ms + [AsMatch(s)] && t.litStart == s.pending.pos + s.pending.M && t.i == s.i + 1
      && t.pending == NoPending
    else if f.M < 40 then
      t.ms == ms && t.litStart == litStart && t.i == s.i + 1 && t.pending == Pending(s.i, f.M, f.D)
    else
      && t.ms == ms + [Match(s.i, s.i - litStart, f.M, f.D)] && t.litStart == s.i + f.M && t.i == s.i + f.M
      && t.pending == NoPending
  }

  lemma {:induction false} TurnRule(src: seq<byte>, s: State)
    requires SearchOk(src, s) && s.i + 8 < |src| && |s.table| == ENCODE_HASH_VALUES
    ensures LazyRule(s, Best(src, s), Turn(src, s)) && Turn(src, s).table == Remember(src, s.table, s.i)
  {
  }

  /**
   * A candidate that meets a pending match covering its position: if it is longer, or as long and nearer, nothing is
   * emitted for the pending match, and the candidate waits in its place or leaves from 40 bytes on; otherwise the
   * pending match is emitted as it stands.
   */
  lemma {:induction false} CandidateMeetsPending(src: seq<byte>, s: State)
    requires SearchOk(src, s) && s.i + 8 < |src| && |s.table| == ENCODE_HASH_VALUES
    requires s.pending.Pending? && s.i < s.pending.pos + s.pending.M && Best(src, s).M >= 3
    ensures var p, f, t := s.pending, Best(src, s), Turn(src, s);
      if f.M > p.M || (f.M == p.M && f.D < p.D) then
        if f.M < 40 then t.ms == s.ms && t.pending == Pending(s.i, f.M, f.D) && t.i == s.i + 1
        else t.ms == s.ms + [Match(s.i, s.i - s.litStart, f.M, f.D)] && t.pending == NoPending && t.i == s.i + f.M
      else t.ms == s.ms + [Match(p.pos, p.pos - s.litStart, p.M, p.D)] && t.pending == NoPending && t.i == s.i + 1
  {
    TurnRule(src, s);
  }

  // ---------------------------------------------------------------- a whole run

  /** The states before and after every turn, and the best match of each turn. */
  ghost predicate LazyRun(ss: seq<State>, fs: seq<Found>) {
    |ss| == |fs| + 1 && ss[0] == Start() && forall n :: 0 <= n < |fs| ==> LazyRule(ss[n], fs[n], ss[n + 1])
  }

  lemma {:induction false} PositionsGrow(ss: seq<State>, fs: seq<Found>, j: nat, k: nat)
    requires LazyRun(ss, fs) && j <= k < |ss|
    ensures ss[j].i + (k - j) <= ss[k].i
    decreases k - j
  {
    if j == k {
    } else {
      PositionsGrow(ss, fs, j, k - 1);
      assert LazyRule(ss[k - 1], fs[k - 1], ss[k]);
    }
  }

  /** The first candidate after turn n is turn k. */
  ghost predicate NextCandidate(fs: seq<Found>, n: nat, k: nat) {
    n < k < |fs| && fs[k].M >= 3 && forall j :: n < j < k ==> fs[j].M < 3
  }

  /** The next candidate after turn n begins inside its match and is better. */
  ghost predicate Superseded(ss: seq<State>, fs: seq<Found>, n: nat)
    requires |ss| == |fs| + 1 && n < |fs|
  {
    exists k: nat :: NextCandidate(fs, n, k) && ss[k].i < ss[n].i + fs[n].M && Better(fs[k], fs[n])
  }

  ghost predicate StartsAt(ms: seq<Match>, i: nat) {
    exists m <- ms :: m.pos == i
  }

  /** Position i lies inside a match that starts before it. */
  ghost predicate Inside(ms: seq<Match>, i: nat) {
    exists m <- ms :: m.pos < i < m.pos + m.M
  }

  // ---------------------------------------------------------------- what holds after n turns

  /** m is the best match of turn k, which no later one supersedes. */
  ghost predicate Chosen(ss: seq<State>, fs: seq<Found>, k: nat, m: Match)
    requires |ss| == |fs| + 1
  {
    k < |fs| && ss[k].i == m.pos && fs[k] == Found(m.M, m.D) && m.M >= 3 && !Superseded(ss, fs, k)
  }

  ghost predicate EmittedAreChosen(ss: seq<State>, fs: seq<Found>, ms: seq<Match>, litStart: nat)
    requires |ss| == |fs| + 1
  {
    forall m <- ms :: m.pos + m.M <= litStart && exists k: nat :: Chosen(ss, fs, k, m)
  }

  /** The same, as a fact to pass around. */
  ghost predicate ChosenUpTo(ss: seq<State>, fs: seq<Found>, ms: seq<Match>, litStart: nat)
    requires |ss| == |fs| + 1
  {
    forall o: seq<Match> :: o == ms ==> EmittedAreChosen(ss, fs, o, litStart)
  }

  /** The pending match of ss[n] is the best match of turn k, and no candidate has come since. */
  ghost predicate PendingSince(ss: seq<State>, fs: seq<Found>, n: nat, k: nat)
    requires |ss| == |fs| + 1 && n < |ss|
  {
    && k < n && ss[n].pending == Pending(ss[k].i, fs[k].M, fs[k].D) && fs[k].M >= 3
    && ss[n].litStart <= ss[k].i && forall j :: k < j < n ==> fs[j].M < 3
  }

  ghost predicate HasPending(ss: seq<State>, fs: seq<Found>, n: nat)
    requires |ss| == |fs| + 1 && n < |ss|
  {
    ss[n].pending.Pending? ==> exists k: nat :: PendingSince(ss, fs, n, k)
  }

  /** What became of the candidate of turn k: it is emitted, inside an emitted match, superseded or still pending. */
  ghost predicate Accounted(ss: seq<State>, fs: seq<Found>, n: nat, k: nat)
    requires |ss| == |fs| + 1 && n < |ss| && k < |fs|
  {
    || StartsAt(ss[n].ms, ss[k].i) || Inside(ss[n].ms, ss[k].i) || Superseded(ss, fs, k)
    || PendingSince(ss, fs, n, k)
  }

  /** A position before litStart is inside the last emitted match. */
  ghost predicate SkippedAreInside(s: State) {
    s.i < s.litStart ==>
      && s.pending.NoPending? && s.ms != []
      && s.ms[|s.ms| - 1].pos < s.i && s.ms[|s.ms| - 1].pos + s.ms[|s.ms| - 1].M == s.litStart
  }

  ghost predicate Holds(ss: seq<State>, fs: seq<Found>, n: nat)
    requires |ss| == |fs| + 1 && n < |ss|
  {
    && ChosenUpTo(ss, fs, ss[n].ms, ss[n].litStart)
    && HasPending(ss, fs, n)
    && (forall k :: 0 <= k < n && fs[k].M >= 3 ==> Accounted(ss, fs, n, k))
    && SkippedAreInside(ss[n])
  }

  /** A pending match leaves unbeaten when a candidate no better meets it. */
  lemma {:induction false} MetUnbeaten(ss: seq<State>, fs: seq<Found>, n: nat, k: nat)
    requires LazyRun(ss, fs) && n < |fs| && PendingSince(ss, fs, n, k)
    requires fs[n].M >= 3 && !Better(fs[n], fs[k])
    ensures !Superseded(ss, fs, k)
  {
    forall j: nat | NextCandidate(fs, k, j)
      ensures j == n
    {
      if j < n { assert false; }
    }
  }

  /** And when its end is reached or the run is over. */
  lemma {:induction false} EndedUnbeaten(ss: seq<State>, fs: seq<Found>, n: nat, k: nat)
    requires LazyRun(ss, fs) && n < |ss| && PendingSince(ss, fs, n, k)
    requires n == |fs| || ss[k].i + fs[k].M <= ss[n].i
    ensures !Superseded(ss, fs, k)
  {
    forall j: nat | NextCandidate(fs, k, j)
      ensures ss[k].i + fs[k].M <= ss[j].i
    {
      if j < n { assert false; }
      PositionsGrow(ss, fs, n, j);
    }
  }

  /** A match that leaves at once is never superseded: the search goes on behind it. */
  lemma {:induction false} LongUnbeaten(ss: seq<State>, fs: seq<Found>, n: nat)
    requires LazyRun(ss, fs) && n < |fs| && ss[n].i + fs[n].M <= ss[n + 1].i
    ensures !Superseded(ss, fs, n)
  {
    forall j: nat | NextCandidate(fs, n, j)
      ensures ss[n].i + fs[n].M <= ss[j].i
    {
      PositionsGrow(ss, fs, n + 1, j);
    }
  }

  // ---------------------------------------------------------------- one turn keeps it

  lemma {:induction false} EmittedGrows(ss: seq<State>, fs: seq<Found>, ms: seq<Match>, litStart: nat, k: nat, m: Match)
    requires LazyRun(ss, fs) && EmittedAreChosen(ss, fs, ms, litStart) && Chosen(ss, fs, k, m) && litStart <= m.pos
    ensures EmittedAreChosen(ss, fs, ms + [m], m.pos + m.M)
  {
  }

  /** What leaves for a pending match is the match that was pending. */
  lemma {:induction false} PendingIsChosen(ss: seq<State>, fs: seq<Found>, n: nat, k: nat)
    requires LazyRun(ss, fs) && n < |ss| && PendingSince(ss, fs, n, k) && !Superseded(ss, fs, k)
    ensures Chosen(ss, fs, k, AsMatch(ss[n]))
  {
  }

  /** A pending match leaves because it has ended, or because a candidate no better meets it. */
  lemma {:induction false} PendingLeaves(ss: seq<State>, fs: seq<Found>, n: nat)
    requires LazyRun(ss, fs) && n < |fs| && ChosenUpTo(ss, fs, ss[n].ms, ss[n].litStart)
    requires HasPending(ss, fs, n) && ss[n].pending.Pending?
    requires var p := ss[n].pending; p.pos + p.M <= ss[n].i || (fs[n].M >= 3 && !Better(fs[n], Found(p.M, p.D)))
    ensures var p := ss[n].pending; ChosenUpTo(ss, fs, ss[n].ms + [AsMatch(ss[n])], p.pos + p.M)
  {
    assert EmittedAreChosen(ss, fs, ss[n].ms, ss[n].litStart);
    var k: nat :| PendingSince(ss, fs, n, k);
    if ss[n].pending.pos + ss[n].pending.M <= ss[n].i {
      EndedUnbeaten(ss, fs, n, k);
    } else {
      MetUnbeaten(ss, fs, n, k);
    }
    PendingIsChosen(ss, fs, n, k);
    EmittedGrows(ss, fs, ss[n].ms, ss[n].litStart, k, AsMatch(ss[n]));
  }

  /** A candidate of at least 40 bytes leaves at once. */
  lemma {:induction false} LongLeaves(ss: seq<State>, fs: seq<Found>, n: nat, ms: seq<Match>, litStart: nat, L: int)
    requires LazyRun(ss, fs) && n < |fs| && ChosenUpTo(ss, fs, ms, litStart) && litStart <= ss[n].i
    requires fs[n].M >= 3 && ss[n + 1].i == ss[n].i + fs[n].M
    ensures ChosenUpTo(ss, fs, ms + [Match(ss[n].i, L, fs[n].M, fs[n].D)], ss[n].i + fs[n].M)
  {
    assert EmittedAreChosen(ss, fs, ms, litStart);
    LongUnbeaten(ss, fs, n);
    EmittedGrows(ss, fs, ms, litStart, n, Match(ss[n].i, L, fs[n].M, fs[n].D));
  }

  /** The emitted matches of ss[n + 1] are all chosen. */
  lemma {:induction false} EmittedStep(ss: seq<State>, fs: seq<Found>, n: nat)
    requires LazyRun(ss, fs) && n < |fs| && ChosenUpTo(ss, fs, ss[n].ms, ss[n].litStart)
    requires HasPending(ss, fs, n)
    ensures ChosenUpTo(ss, fs, ss[n + 1].ms, ss[n + 1].litStart)
  {
    var s, f, t := ss[n], fs[n], ss[n + 1];
    assert LazyRule(s, f, t);
    var ms, litStart := s.ms, s.litStart;
    if s.pending.Pending? && s.pending.pos + s.pending.M <= s.i {
      PendingLeaves(ss, fs, n);
      ms, litStart := ms + [AsMatch(s)], s.pending.pos + s.pending.M;
    }
    if f.M < 3 || s.i < litStart {
    } else if s.pending.Pending? && s.i < s.pending.pos + s.pending.M && !Better(f, Found(s.pending.M, s.pending.D)) {
      PendingLeaves(ss, fs, n);
    } else if f.M >= 40 {
      LongLeaves(ss, fs, n, ms, litStart, s.i - litStart);
    }
  }

  /** A turn adds matches at the end. */
  lemma {:induction false} StaysAccounted(ss: seq<State>, fs: seq<Found>, n: nat, k: nat)
    requires LazyRun(ss, fs) && k < n < |fs| && Holds(ss, fs, n) && fs[k].M >= 3
    ensures Accounted(ss, fs, n + 1, k)
  {
    var s, f, t := ss[n], fs[n], ss[n + 1];
    assert LazyRule(s, f, t) && Accounted(ss, fs, n, k);
    assert forall m <- s.ms :: m in t.ms;
    if PendingSince(ss, fs, n, k) {
      PositionsGrow(ss, fs, k, n);
      if s.i < s.pending.pos + s.pending.M && f.M >= 3 && Better(f, fs[k]) {
        assert NextCandidate(fs, k, n);
      } else if s.i < s.pending.pos + s.pending.M && f.M < 3 {
        assert PendingSince(ss, fs, n + 1, k);
      } else {
        assert AsMatch(s) in t.ms;
      }
    }
  }

  /** What becomes of the candidate of the turn itself. */
  lemma {:induction false} IsAccounted(ss: seq<State>, fs: seq<Found>, n: nat)
    requires LazyRun(ss, fs) && n < |fs| && Holds(ss, fs, n) && fs[n].M >= 3
    ensures Accounted(ss, fs, n + 1, n)
  {
    var s, f, t := ss[n], fs[n], ss[n + 1];
    assert LazyRule(s, f, t);
    assert forall m <- s.ms :: m in t.ms;
    if t.pending != NoPending {
      assert PendingSince(ss, fs, n + 1, n);
    } else if s.i < s.litStart {
      assert s.ms[|s.ms| - 1] in t.ms;
    } else if s.pending.Pending? && s.i < s.pending.pos + s.pending.M && !Better(f, Found(s.pending.M, s.pending.D)) {
      var k: nat :| PendingSince(ss, fs, n, k);
      PositionsGrow(ss, fs, k, n);
      assert AsMatch(s) in t.ms;
    } else {
      assert t.ms[|t.ms| - 1].pos == s.i;
    }
  }

  lemma {:induction false} PendingStep(ss: seq<State>, fs: seq<Found>, n: nat)
    requires 0 < n < |ss| == |fs| + 1 && LazyRule(ss[n - 1], fs[n - 1], ss[n])
    requires HasPending(ss, fs, n - 1) && SkippedAreInside(ss[n - 1])
    ensures HasPending(ss, fs, n)
  {
    if ss[n].pending == ss[n - 1].pending && ss[n].pending.Pending? && fs[n - 1].M < 3 {
      var k: nat :| PendingSince(ss, fs, n - 1, k);
      assert PendingSince(ss, fs, n, k);
    } else if ss[n].pending.Pending? {
      assert PendingSince(ss, fs, n, n - 1);
    }
  }

  lemma {:induction false} SkippedStep(ss: seq<State>, fs: seq<Found>, n: nat)
    requires LazyRun(ss, fs) && n < |fs| && Holds(ss, fs, n)
    ensures SkippedAreInside(ss[n + 1])
  {
    assert LazyRule(ss[n], fs[n], ss[n + 1]);
    if ss[n].pending.Pending? {
      var k: nat :| PendingSince(ss, fs, n, k);
      PositionsGrow(ss, fs, k, n);
    }
  }

  lemma {:induction false} AllHold(ss: seq<State>, fs: seq<Found>, n: nat)
    requires LazyRun(ss, fs) && n < |ss|
    ensures Holds(ss, fs, n)
  {
    if n == 0 {
    } else {
      AllHold(ss, fs, n - 1);
      EmittedStep(ss, fs, n - 1);
      SkippedStep(ss, fs, n - 1);
      assert LazyRule(ss[n - 1], fs[n - 1], ss[n]);
      PendingStep(ss, fs, n);
      forall k | 0 <= k < n && fs[k].M >= 3
        ensures Accounted(ss, fs, n, k)
      {
        if k < n - 1 { StaysAccounted(ss, fs, n - 1, k); } else { IsAccounted(ss, fs, n - 1); }
      }
    }
  }

  // ---------------------------------------------------------------- the emitted list

  /** The states of the search from s on. */
  function Trace(src: seq<byte>, s: State): seq<State>
    requires |s.table| == ENCODE_HASH_VALUES
    decreases |src| - s.i
  {
    if s.i + 8 < |src| then [s] + Trace(src, Turn(src, s)) else [s]
  }

  /** The best match of each turn. */
  function Bests(src: seq<byte>, s: State): seq<Found>
    requires |s.table| == ENCODE_HASH_VALUES
    decreases |src| - s.i
  {
    if s.i + 8 < |src| then [Best(src, s)] + Bests(src, Turn(src, s)) else []
  }

  /** The states lead from s to the end of the search by the rule. */
  ghost predicate Traced(src: seq<byte>, s: State, ss: seq<State>, fs: seq<Found>) {
    && |ss| == |fs| + 1 && ss[0] == s && |s.table| == ENCODE_HASH_VALUES && ss[|fs|] == Run(src, s)
    && ss[|fs|].i + 8 >= |src|
    && forall n :: 0 <= n < |fs| ==>
      && ss[n].i + 8 < |src| && |ss[n].table| == ENCODE_HASH_VALUES
      && fs[n] == Best(src, ss[n]) && LazyRule(ss[n], fs[n], ss[n + 1])
      && ss[n + 1].table == Remember(src, ss[n].table, ss[n].i)
  }

  lemma {:induction false} TraceIsRun(src: seq<byte>, s: State)
    requires SearchOk(src, s) && |s.table| == ENCODE_HASH_VALUES
    ensures Traced(src, s, Trace(src, s), Bests(src, s))
    decreases |src| - s.i
  {
    if s.i + 8 >= |src| {
    } else {
      TurnKeeps(src, s);
      TurnRule(src, s);
      TraceIsRun(src, Turn(src, s));
      TracedFrom(src, s, Trace(src, Turn(src, s)), Bests(src, Turn(src, s)));
    }
  }

  lemma {:induction false} TracedFrom(src: seq<byte>, s: State, ss: seq<State>, fs: seq<Found>)
    requires s.i + 8 < |src| && |s.table| == ENCODE_HASH_VALUES && Traced(src, Turn(src, s), ss, fs)
    requires LazyRule(s, Best(src, s), Turn(src, s)) && Turn(src, s).table == Remember(src, s.table, s.i)
    ensures Traced(src, s, [s] + ss, [Best(src, s)] + fs)
  {
    var ss', fs' := [s] + ss, [Best(src, s)] + fs;
    forall n | 0 <= n < |fs'|
      ensures ss'[n].i + 8 < |src| && |ss'[n].table| == ENCODE_HASH_VALUES
      ensures fs'[n] == Best(src, ss'[n]) && LazyRule(ss'[n], fs'[n], ss'[n + 1])
      ensures ss'[n + 1].table == Remember(src, ss'[n].table, ss'[n].i)
    {
      if n > 0 { assert fs'[n] == fs[n - 1] && ss'[n] == ss[n - 1] && ss'[n + 1] == ss[n]; }
    }
  }

  /** Matches of a valid parse do not overlap. */
  lemma {:induction false} Disjoint(src: seq<byte>, litPos: nat, ms: seq<Match>, a: Match, b: Match)
    requires ValidMatches(src, litPos, ms, |src|) && a in ms && b in ms
    ensures litPos <= a.pos && !(a.pos < b.pos < a.pos + a.M)
    decreases |ms|
  {
    var next := ms[0].pos + ms[0].M;
    if a in ms[1..] && b in ms[1..] {
      Disjoint(src, next, ms[1..], a, b);
    } else if a in ms[1..] {
      Disjoint(src, next, ms[1..], a, a);
    } else if b in ms[1..] {
      Disjoint(src, next, ms[1..], b, b);
    }
  }

  /** After the last turn the pending match is emitted too, and every emitted match is chosen. */
  lemma {:induction false} EmittedAtTheEnd(ss: seq<State>, fs: seq<Found>, ms: seq<Match>)
    requires LazyRun(ss, fs) && ms == LastEmitted(ss[|fs|])
    ensures forall m <- ms :: exists k: nat :: Chosen(ss, fs, k, m)
  {
    var n := |fs|;
    AllHold(ss, fs, n);
    assert EmittedAreChosen(ss, fs, ss[n].ms, ss[n].litStart);
    if ss[n].pending.Pending? {
      var k: nat :| PendingSince(ss, fs, n, k);
      EndedUnbeaten(ss, fs, n, k);
      PendingIsChosen(ss, fs, n, k);
    }
  }

  /** And every candidate is accounted for. */
  lemma {:induction false} AccountedAtTheEnd(ss: seq<State>, fs: seq<Found>, ms: seq<Match>, k: nat)
    requires LazyRun(ss, fs) && ms == LastEmitted(ss[|fs|]) && k < |fs| && fs[k].M >= 3
    ensures StartsAt(ms, ss[k].i) || Inside(ms, ss[k].i) || Superseded(ss, fs, k)
  {
    var s := ss[|fs|];
    AllHold(ss, fs, |fs|);
    assert Accounted(ss, fs, |fs|, k);
    assert forall m <- s.ms :: m in ms;
    if s.pending.Pending? { assert AsMatch(s) in ms; }
  }

  /**
   * The parse of a source: every match is the best match at a position the search visits; and such a best match, of
   * three bytes or more, is emitted exactly when it does not begin inside an emitted match and the next one does not
   * both begin inside it and beat it.
   */
  lemma {:induction false} ParseIsLazy(src: seq<byte>)
    ensures var ss, fs, ms := Trace(src, Start()), Bests(src, Start()), Parse(src);
      && LazyRun(ss, fs)
      && (forall m <- ms :: exists n: nat :: n < |fs| && ss[n].i == m.pos && fs[n] == Found(m.M, m.D))
      && forall n :: 0 <= n < |fs| && fs[n].M >= 3 ==>
        (StartsAt(ms, ss[n].i) <==> !Inside(ms, ss[n].i) && !Superseded(ss, fs, n))
  {
    var ss, fs, ms := Trace(src, Start()), Bests(src, Start()), Parse(src);
    assert SearchOk(src, Start());
    TraceIsRun(src, Start());
    ParseIsValid(src);
    EmittedAtTheEnd(ss, fs, ms);
    forall m <- ms
      ensures exists n: nat :: n < |fs| && ss[n].i == m.pos && fs[n] == Found(m.M, m.D)
    {
      var k: nat :| Chosen(ss, fs, k, m);
    }
    forall n | 0 <= n < |fs| && fs[n].M >= 3
      ensures StartsAt(ms, ss[n].i) <==> !Inside(ms, ss[n].i) && !Superseded(ss, fs, n)
    {
      AccountedAtTheEnd(ss, fs, ms, n);
      if StartsAt(ms, ss[n].i) {
        NoneInside(src, ms, ss[n].i);
        var m :| m in ms && m.pos == ss[n].i;
        var k: nat :| Chosen(ss, fs, k, m);
        ChosenThere(ss, fs, n, k, m);
      }
    }
  }

  /** Matches of a valid parse begin inside no other. */
  lemma {:induction false} NoneInside(src: seq<byte>, ms: seq<Match>, i: nat)
    requires ValidMatches(src, 0, ms, |src|) && StartsAt(ms, i)
    ensures !Inside(ms, i)
  {
    var m :| m in ms && m.pos == i;
    forall a <- ms
      ensures !(a.pos < i < a.pos + a.M)
    {
      Disjoint(src, 0, ms, a, m);
    }
  }

  /** A match chosen at the position of a turn is the one of that turn. */
  lemma {:induction false} ChosenThere(ss: seq<State>, fs: seq<Found>, n: nat, k: nat, m: Match)
    requires LazyRun(ss, fs) && n < |fs| && Chosen(ss, fs, k, m) && m.pos == ss[n].i
    ensures !Superseded(ss, fs, n)
  {
    if k < n {
      PositionsGrow(ss, fs, k, n);
    } else if n < k {
      PositionsGrow(ss, fs, n, k);
    }
  }

  // ---------------------------------------------------------------- where the candidates come from

  /** Position i was visited, or is skipped inside a match of at least 40 bytes. */
  ghost predicate VisitedOrSkipped(ss: seq<State>, n: nat, i: nat)
    requires n < |ss|
  {
    || (exists k :: 0 <= k < n && ss[k].i == i)
    || exists m <- ss[n].ms :: m.M >= 40 && m.pos < i < m.pos + m.M
  }

  /** The search visits every position but those inside matches of at least 40 bytes. */
  lemma {:induction false} EveryPosition(ss: seq<State>, fs: seq<Found>, n: nat, i: nat)
    requires LazyRun(ss, fs) && n < |ss| && i < ss[n].i
    ensures VisitedOrSkipped(ss, n, i)
  {
    if n == 0 {
    } else {
      var s, t := ss[n - 1], ss[n];
      assert LazyRule(s, fs[n - 1], t);
      assert forall m <- s.ms :: m in t.ms;
      if i < s.i {
        EveryPosition(ss, fs, n - 1, i);
      } else if i > s.i {
        var m := t.ms[|t.ms| - 1];
        assert m in t.ms && m.M >= 40 && m.pos < i < m.pos + m.M;
      }
    }
  }

  lemma {:induction false} VisitedToTheEnd(src: seq<byte>, i: nat)
    requires i + 8 < |src|
    ensures var ss := Trace(src, Start()); VisitedOrSkipped(ss, |ss| - 1, i)
  {
    assert SearchOk(src, Start());
    TraceIsRun(src, Start());
    var ss, fs := Trace(src, Start()), Bests(src, Start());
    assert LazyRun(ss, fs);
    EveryPosition(ss, fs, |fs|, i);
  }

  /** The positions visited before turn n whose word has hash h, latest first. */
  function Recent(src: seq<byte>, ss: seq<State>, n: nat, h: nat): (ps: seq<nat>)
    requires n <= |ss| && forall k :: 0 <= k < n ==> ss[k].i + 4 <= |src|
    ensures forall k :: 0 <= k < |ps| ==> ps[k] + 4 <= |src|
  {
    if n == 0 then []
    else
      var ps, i := Recent(src, ss, n - 1, h), ss[n - 1].i;
      if LzfseHash(Load32(src, i)) == h then [i] + ps else ps
  }

  function Words(src: seq<byte>, ps: seq<nat>): (ws: seq<nat>)
    requires forall k :: 0 <= k < |ps| ==> ps[k] + 4 <= |src|
    ensures |ws| == |ps|
  {
    if ps == [] then [] else [Load32(src, ps[0])] + Words(src, ps[1..])
  }

  const ZEROS: seq<nat> := [0, 0, 0, 0]

  /** The latest four of a list, filled up with zeros. */
  function LatestFour(s: seq<nat>): (r: seq<nat>)
    ensures |r| == 4
  {
    (s + ZEROS)[..4]
  }

  lemma ShiftIn(x: nat, s: seq<nat>)
    ensures LatestFour([x] + s) == [x] + LatestFour(s)[..3]
  {
  }

  /** A bucket holds the four latest visited positions with its hash, and their words. */
  ghost predicate IsBucket(src: seq<byte>, ss: seq<State>, n: nat, h: nat, e: HashEntry) {
    && n <= |ss| && (forall k :: 0 <= k < n ==> ss[k].i + 4 <= |src|)
    && e.pos == LatestFour(Recent(src, ss, n, h)) && e.value == LatestFour(Words(src, Recent(src, ss, n, h)))
  }

  lemma {:induction false} BucketHolds(src: seq<byte>, ss: seq<State>, fs: seq<Found>, n: nat, h: nat)
    requires Traced(src, Start(), ss, fs) && n <= |fs| && h < ENCODE_HASH_VALUES
    ensures |ss[n].table| == ENCODE_HASH_VALUES && IsBucket(src, ss, n, h, ss[n].table[h])
  {
    if n == 0 {
    } else {
      BucketHolds(src, ss, fs, n - 1, h);
      var i, ps := ss[n - 1].i, Recent(src, ss, n - 1, h);
      assert ss[n].table == Remember(src, ss[n - 1].table, i);
      if LzfseHash(Load32(src, i)) == h {
        ShiftIn(i, ps);
        ShiftIn(Load32(src, i), Words(src, ps));
        assert ([i] + ps)[1..] == ps;
      }
    }
  }

  /** The best match of a turn is the best with one of the four latest visited positions whose word has its hash. */
  lemma {:induction false} BestOfTheLatest(src: seq<byte>, n: nat)
    requires n < |Bests(src, Start())|
    ensures var ss, f := Trace(src, Start()), Bests(src, Start())[n];
      && n < |ss| && ss[n].i + 8 < |src|
      && var x := Load32(src, ss[n].i);
         exists e :: IsBucket(src, ss, n, LzfseHash(x), e) && IsBest(src, ss[n].i, x, e, 4, f)
  {
    var ss, fs := Trace(src, Start()), Bests(src, Start());
    assert SearchOk(src, Start());
    TraceIsRun(src, Start());
    var i := ss[n].i;
    var x := Load32(src, i);
    BucketHolds(src, ss, fs, n, LzfseHash(x));
    BestOfIsBest(src, i, x, ss[n].table[LzfseHash(x)], 4);
  }
}
