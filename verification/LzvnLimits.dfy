/** How far LZVN's literal runs really go. */
module LzvnLimits {
  import opened Bits
  import opened Lz
  import opened LzvnEmit
  import opened LzvnSearch

  // ---------------------------------------------------------------- searching where nothing repeats

  /** The three bytes at i have not occurred before. */
  ghost predicate Fresh(src: seq<byte>, i: nat) {
    i + 3 <= |src| && forall j: nat :: j < i ==> !SameThree(src, j, i)
  }

  /** No three bytes of the source occur twice. */
  ghost predicate NoRepeats(src: seq<byte>) {
    forall i: nat :: i + 3 <= |src| ==> Fresh(src, i)
  }

  lemma MatchRepeats(src: seq<byte>, m: MatchInfo, lit: nat, at: nat)
    requires Verified(src, m, lit, at)
    ensures SameThree(src, at - m.D, at) && !Fresh(src, at)
  {
    assert Same(src, at, m.D) && Same(src, at + 1, m.D) && Same(src, at + 2, m.D);
    assert SameThree(src, at - m.D, at);
  }

  /** A turn at a position inside an emitted match, or where nothing repeats, only fills the table. */
  lemma QuietTurn(src: seq<byte>, s: State)
    requires Valid(src, s) && s.pos + MIN_MARGIN < |src| && s.pending.M == 0
    requires s.pos < s.lit || (Fresh(src, s.pos) && s.pos < s.lit + MAX_BACKLOG)
    ensures Considered(src, s) == s
  {
    if s.pos >= s.lit {
      var b := BucketAt(src, s);
      IncomingVerified(src, s.lit, s.pos, s.dPrev, b);
      var m := Incoming(src, s.lit, s.pos, s.dPrev, b);
      if m.M != 0 { MatchRepeats(src, m, s.lit, s.pos); }
    }
  }

  /** A stretch of such positions leaves everything but the table as it was. */
  lemma {:induction false} QuietRun(src: seq<byte>, s: State, c: nat, end: nat) returns (s': State)
    requires Valid(src, s) && s.pending.M == 0 && s.pos <= c <= end && end + MIN_MARGIN <= |src|
    requires forall i :: s.pos <= i < c ==> i < s.lit || Fresh(src, i)
    requires c <= s.lit + MAX_BACKLOG
    ensures Valid(src, s') && s' == s.(table := s'.table, pos := c)
    ensures Run(src, s, end) == Run(src, s', end)
    decreases c - s.pos
  {
    s' := s;
    if s.pos == c {
    } else {
      QuietTurn(src, s);
      TurnKeeps(src, s);
      s' := QuietRun(src, Turn(src, s), c, end);
    }
  }

  /** One turn of a run. */
  lemma OneTurn(src: seq<byte>, s: State, end: nat) returns (s': State)
    requires Valid(src, s) && s.pos < end && end + MIN_MARGIN <= |src|
    ensures Valid(src, s') && s' == Considered(src, s).(table := s'.table, pos := s.pos + 1)
    ensures Run(src, s, end) == Run(src, s', end)
  {
    TurnKeeps(src, s);
    s' := Turn(src, s);
  }

  lemma SameHash(src: seq<byte>, i: nat, j: nat)
    requires i + 4 <= |src| && j + 4 <= |src| && SameThree(src, i, j)
    ensures Hash3(Load32(src, i)) == Hash3(Load32(src, j))
  {
    LowThree(src, i);
    LowThree(src, j);
  }

  lemma LowThree(src: seq<byte>, i: nat)
    requires i + 4 <= |src|
    ensures var a: nat, b: nat, c: nat := src[i], src[i + 1], src[i + 2];
            Load32(src, i) % 0x100_0000 == a + 256 * (b + 256 * c)
  {
    var w := src[i..i + 4];
    assert LE(w[3..]) == w[3] + 256 * LE(w[4..]) == w[3];
    assert LE(w[2..]) == w[2] + 256 * LE(w[2..][1..]) && w[2..][1..] == w[3..];
    assert LE(w[1..]) == w[1] + 256 * LE(w[1..][1..]) && w[1..][1..] == w[2..];
    var a: nat, b: nat, c: nat, d: nat := w[0], w[1], w[2], w[3];
    assert LE(w) == a + 256 * (b + 256 * c) + 0x100_0000 * d;
  }

  /** Three bytes that occurred at one of the last four positions are found, whatever else hashes there. */
  lemma RecentFound(src: seq<byte>, s: State, j: nat)
    requires Valid(src, s) && s.pos + MIN_MARGIN < |src| && s.lit <= s.pos && s.dPrev == 0
    requires j < s.pos <= j + 4 && SameThree(src, j, s.pos)
    ensures var m := Incoming(src, s.lit, s.pos, 0, BucketAt(src, s));
            && FromBucket(src, s.lit, s.pos, m) && m.M != 0
            && m.K >= FindN(src, s.lit, j, s.pos, Common(src, s.pos, j)).K
  {
    var b := BucketAt(src, s);
    SameHash(src, j, s.pos);
    assert Held(src, s.table, j, s.pos);
    var k :| 0 <= k < s.pos - j && k < 4 && b[k] == j;
    BestOfBest(src, s.lit, s.pos, b, 4, k);
    BestOfVerified(src, s.lit, s.pos, b, 4);
  }

  lemma NothingEmitted(src: seq<byte>)
    requires |src| > 0 && Searched(src).lit == 0 && Searched(src).ops == []
    ensures EncodeOps(src) == [Literals(src)]
  {
    assert src[0..|src|] == src;
  }

  /** A source of fewer than 280 bytes in which nothing repeats leaves as one literal run. */
  lemma UnmatchedSource(src: seq<byte>)
    requires NoRepeats(src) && 0 < |src| < 280
    ensures EncodeOps(src) == [Literals(src)]
  {
    if |src| >= MIN_SRC_SIZE {
      InitialValid(src);
      var end := |src| - MIN_MARGIN;
      var s := QuietRun(src, Initial(), end, end);
    }
    NothingEmitted(src);
  }

  // ---------------------------------------------------------------- the bounds are attained

  /** 0, 1, ..., 255, 255, 254, ...: no three of the first 512 bytes occur twice. */
  function UpDown(i: nat): byte
    requires i < 512
  {
    if i < 256 then i else 511 - i
  }

  /** 270 bytes without a repetition, then zeros. */
  function LateMatch(): (s: seq<byte>)
    ensures |s| == 280 && forall i :: 0 <= i < 280 ==> s[i] == if i < 270 then UpDown(i) else 0
  {
    seq(280, i requires 0 <= i < 280 => if i < 270 then UpDown(i) else 0)
  }

  lemma LateMatchFresh(i: nat)
    requires i <= 270
    ensures Fresh(LateMatch(), i)
  {
    var s := LateMatch();
    forall j: nat | j < i
      ensures !SameThree(s, j, i)
    {
      var a: int, b: int, c: int := s[j], s[j + 1], s[j + 2];
      var x: int, y: int, z: int := s[i], s[i + 1], s[i + 2];
    }
  }

  /** A match first seen at backlog 271 is dropped at the end: the trailing run is 280 bytes. */
  lemma TrailingRunAttained()
    ensures EncodeOps(LateMatch()) == [Literals(LateMatch())] && |LateMatch()| == 280
  {
    var src := LateMatch();
    InitialValid(src);
    forall i: nat | i < 271
      ensures Fresh(src, i)
    {
      LateMatchFresh(i);
    }
    var s := QuietRun(src, Initial(), 271, 272);
    assert SameThree(src, 270, 271);
    RecentFound(src, s, 270);
    var s' := OneTurn(src, s, 272);
    NothingEmitted(src);
  }

  /** 267 bytes without a repetition, then 0 0 0 7 and zeros. */
  function LateReplacement(): (s: seq<byte>)
    ensures |s| == 281
    ensures forall i :: 0 <= i < 281 ==> s[i] == if i < 267 then UpDown(i) else if i == 270 then 7 else 0
  {
    seq(281, i requires 0 <= i < 281 => if i < 267 then UpDown(i) else if i == 270 then 7 else 0)
  }

  lemma LateReplacementFresh(i: nat)
    requires i <= 270
    ensures Fresh(LateReplacement(), i)
  {
    var s := LateReplacement();
    forall j: nat | j < i
      ensures !SameThree(s, j, i)
    {
      var a: int, b: int, c: int := s[j], s[j + 1], s[j + 2];
      var x: int, y: int, z: int := s[i], s[i + 1], s[i + 2];
    }
  }

  lemma EarlierZeros(j: nat, i: nat)
    requires j < i && 271 <= i <= 272 && SameThree(LateReplacement(), j, i)
    ensures j == 267 || (i == 272 && j == 271)
  {
    var s := LateReplacement();
    var a: int, b: int, c: int := s[j], s[j + 1], s[j + 2];
    assert s[i] == 0 && s[i + 1] == 0 && s[i + 2] == 0;
  }

  /** At backlog 271 the only match is three zeros, four back. */
  lemma FirstReplacement(m: MatchInfo)
    requires FromBucket(LateReplacement(), 0, 271, m) && m.M != 0
    ensures m == MatchInfo(271, 274, 3, 4, 1)
  {
    var s := LateReplacement();
    MatchRepeats(s, m, 0, 271);
    EarlierZeros(271 - m.D, 271);
    assert !Same(s, 270, 4) && !Same(s, 274, 4);
  }

  /** At 272 a better match begins, one back. */
  lemma SecondReplacement(m: MatchInfo)
    requires FromBucket(LateReplacement(), 0, 272, m) && m.M != 0 && m.K > 1
    ensures m.mBegin == 272 && m.D == 1
  {
    var s := LateReplacement();
    MatchRepeats(s, m, 0, 272);
    EarlierZeros(272 - m.D, 272);
    assert !Same(s, 275, 5) && !Same(s, 271, 5) && !Same(s, 271, 1);
  }

  lemma OneBackIsBetter()
    ensures FindN(LateReplacement(), 0, 271, 272, Common(LateReplacement(), 272, 271)).K > 1
  {
    var s := LateReplacement();
    assert Common(s, 272, 271) == 4;
    assert Same(s, 272, 1) && Same(s, 273, 1) && Same(s, 274, 1) && Same(s, 275, 1);
    ForwardRepeats(s, 272, 276, 1, 4);
  }

  /** The state at backlog 272: nothing emitted, three zeros pending. */
  lemma BeforeReplacement() returns (s: State)
    ensures var src := LateReplacement();
            && Valid(src, s) && s.pos == 272 && s.lit == s.dPrev == 0 && s.ops == []
            && s.pending == MatchInfo(271, 274, 3, 4, 1) && Searched(src) == Run(src, s, 273)
  {
    var src := LateReplacement();
    InitialValid(src);
    forall i: nat | i < 271
      ensures Fresh(src, i)
    {
      LateReplacementFresh(i);
    }
    s := QuietRun(src, Initial(), 271, 273);
    assert SameThree(src, 267, 271);
    RecentFound(src, s, 267);
    FirstReplacement(Incoming(src, 0, 271, 0, BucketAt(src, s)));
    s := OneTurn(src, s, 273);
  }

  lemma Replaces(s: State, m: MatchInfo)
    requires s.pos == 272 && s.lit == 0 && s.ops == [] && s.pending == MatchInfo(271, 274, 3, 4, 1)
    requires m.M != 0 && m.mBegin == 272 && m.K > 1
    ensures var s' := Decided(LateReplacement(), s, m);
            s'.ops == [Triplet(LateReplacement()[..272], m.M, m.D)]
  {
  }

  lemma FirstOperation(src: seq<byte>, op: Op)
    requires Searched(src).ops == [op]
    ensures EncodeOps(src) != [] && EncodeOps(src)[0] == op
  {
  }

  /** A better match at backlog 272 replaces the pending one and is emitted with 272 literals. */
  lemma MatchRunAttained()
    ensures var ops := EncodeOps(LateReplacement());
            ops != [] && ops[0].Triplet? && ops[0].p == LateReplacement()[..272]
  {
    var src := LateReplacement();
    var s := BeforeReplacement();
    assert SameThree(src, 271, 272);
    RecentFound(src, s, 271);
    OneBackIsBetter();
    var m := Incoming(src, 0, 272, 0, BucketAt(src, s));
    SecondReplacement(m);
    Replaces(s, m);
    var s' := OneTurn(src, s, 273);
    FirstOperation(src, Triplet(src[..272], m.M, m.D));
  }
}
