/** A source whose matches the splitter accepts as one block although its records are more than 10000. */
module RecordLimit {
  import opened Bits
  import opened Lz
  import opened Lmd
  import opened Records
  import opened FindMatches
  import Splitter

  // ---------------------------------------------------------------- the source

  const CHUNKS := 9998
  const CHUNK := 22
  const BODY := 219956
  const TAIL := 640

  /** Chunk k is (a b c) seven times and an a; the three bytes are the digits of k, in disjoint alphabets. */
  function DigitA(k: nat): byte { 1 + k % 22 }

  function DigitB(k: nat): byte { 32 + k / 22 % 22 }

  function DigitC(k: nat): byte
    requires k < CHUNKS
  {
    64 + k / 484
  }

  function ChunkByte(k: nat, r: nat): byte
    requires k < CHUNKS
  {
    if r % 3 == 0 then DigitA(k) else if r % 3 == 1 then DigitB(k) else DigitC(k)
  }

  /** The tail's bytes alternate between two further alphabets: the digits of half their index. */
  function TailByte(t: nat): byte
    requires t < TAIL
  {
    if t % 2 == 0 then 128 + t / 2 % 32 else 192 + t / 64
  }

  function ByteAt(i: nat): byte
    requires i < BODY + TAIL
  {
    if i < BODY then ChunkByte(i / CHUNK, i % CHUNK) else TailByte(i - BODY)
  }

  /** 9998 chunks of 22 bytes, each with one match of 19 bytes, and 640 bytes without a match. */
  function ManyMatches(): (s: seq<byte>)
    ensures |s| == BODY + TAIL && forall i :: 0 <= i < |s| ==> s[i] == ByteAt(i)
  {
    seq(BODY + TAIL, i requires 0 <= i < BODY + TAIL => ByteAt(i))
  }

  // ---------------------------------------------------------------- its words

  predicate SameFour(src: seq<byte>, i: nat, j: nat)
    requires i + 4 <= |src| && j + 4 <= |src|
  {
    src[i] == src[j] && src[i + 1] == src[j + 1] && src[i + 2] == src[j + 2] && src[i + 3] == src[j + 3]
  }

  /** The four bytes at i have not occurred before, except at j. */
  ghost predicate OnlyAt(src: seq<byte>, i: nat, j: nat) {
    i + 4 <= |src| && forall q: nat :: q < i && q != j ==> !SameFour(src, q, i)
  }

  lemma SameWord(src: seq<byte>, i: nat, j: nat)
    requires i + 4 <= |src| && j + 4 <= |src|
    ensures Load32(src, i) == Load32(src, j) <==> SameFour(src, i, j)
  {
    var a, b := src[i..i + 4], src[j..j + 4];
    assert forall k :: 0 <= k < 4 ==> a[k] == src[i + k] && b[k] == src[j + k];
    if Load32(src, i) == Load32(src, j) {
      LEInjective(a, b);
      assert a[0] == b[0] && a[1] == b[1] && a[2] == b[2] && a[3] == b[3];
    }
    if SameFour(src, i, j) {
      assert a == b;
    }
  }

  lemma WordNonZero(src: seq<byte>, i: nat)
    requires i + 4 <= |src| && src[i] != 0
    ensures Load32(src, i) != 0
  {
    var a := src[i..i + 4];
    assert a[0] == src[i];
  }

  lemma DigitsUnique(k: nat, k': nat)
    requires k < CHUNKS && k' < CHUNKS
    requires DigitA(k) == DigitA(k') && DigitB(k) == DigitB(k') && DigitC(k) == DigitC(k')
    ensures k == k'
  {
    var a: int, b: int, c: int := k % 22, k / 22 % 22, k / 484;
    var a': int, b': int, c': int := k' % 22, k' / 22 % 22, k' / 484;
    assert k / 484 == k / 22 / 22 && k' / 484 == k' / 22 / 22;
    assert DigitA(k) as int == 1 + a && DigitA(k') as int == 1 + a';
    assert DigitB(k) as int == 32 + b && DigitB(k') as int == 32 + b';
    assert DigitC(k) as int == 64 + c && DigitC(k') as int == 64 + c';
  }

  /** The byte d places after byte r of chunk k, which may lie in the next chunk. */
  function After(k: nat, r: nat, d: nat): byte
    requires k < CHUNKS && (r + d >= CHUNK ==> k + 1 < CHUNKS)
  {
    if r + d < CHUNK then ChunkByte(k, r + d) else ChunkByte(k + 1, r + d - CHUNK)
  }

  lemma ByteAfter(k: nat, r: nat, d: nat)
    requires k < CHUNKS && r < CHUNK && d < 4 && (r + d >= CHUNK ==> k + 1 < CHUNKS)
    ensures CHUNK * k + r + d < BODY && ManyMatches()[CHUNK * k + r + d] == After(k, r, d)
  {
    var i := CHUNK * k + r + d;
    assert ManyMatches()[i] == ByteAt(i);
    if r + d < CHUNK {
      assert i / CHUNK == k && i % CHUNK == r + d;
    } else {
      assert i / CHUNK == k + 1 && i % CHUNK == r + d - CHUNK;
    }
  }

  lemma WordAfter(k: nat, r: nat, i: nat)
    requires k < CHUNKS && r < CHUNK && i == CHUNK * k + r && (r + 3 >= CHUNK ==> k + 1 < CHUNKS)
    ensures i + 4 <= BODY
    ensures var src := ManyMatches();
            && src[i] == After(k, r, 0) && src[i + 1] == After(k, r, 1)
            && src[i + 2] == After(k, r, 2) && src[i + 3] == After(k, r, 3)
  {
    ByteAfter(k, r, 0);
    ByteAfter(k, r, 1);
    ByteAfter(k, r, 2);
    ByteAfter(k, r, 3);
  }

  lemma AlphabetOf(k: nat, r: nat)
    requires k < CHUNKS
    ensures var b: int := ChunkByte(k, r);
            && (r % 3 == 0 <==> 1 <= b < 32) && (r % 3 == 1 <==> 32 <= b < 64) && (r % 3 == 2 <==> 64 <= b < 128)
            && 1 <= b < 128
  {
  }

  /** A word inside one chunk fixes the chunk and the place in the cycle. */
  lemma WordInChunk(k: nat, r: nat, k': nat, r': nat)
    requires k < CHUNKS && k' < CHUNKS
    requires ChunkByte(k, r) == ChunkByte(k', r') && ChunkByte(k, r + 1) == ChunkByte(k', r' + 1)
    requires ChunkByte(k, r + 2) == ChunkByte(k', r' + 2)
    ensures k == k' && r % 3 == r' % 3
  {
    AlphabetOf(k, r);
    AlphabetOf(k', r');
    AlphabetOf(k, r + 1);
    AlphabetOf(k', r' + 1);
    DigitsUnique(k, k');
  }

  predicate SameAfter(k: nat, r: nat, k': nat, r': nat)
    requires k < CHUNKS && r + 3 < CHUNK && k' < CHUNKS && (r' + 3 >= CHUNK ==> k' + 1 < CHUNKS)
  {
    && After(k, r, 0) == After(k', r', 0) && After(k, r, 1) == After(k', r', 1)
    && After(k, r, 2) == After(k', r', 2) && After(k, r, 3) == After(k', r', 3)
  }

  /** A word that runs into the next chunk has two neighbours of the first alphabet. */
  lemma AcrossChunks(k: nat, r: nat, k': nat, r': nat)
    requires k < CHUNKS && r + 3 < CHUNK && k' + 1 < CHUNKS && 19 <= r' < CHUNK
    ensures !SameAfter(k, r, k', r')
  {
    var d := 21 - r';
    AlphabetOf(k', 21);
    AlphabetOf(k' + 1, 0);
    assert After(k', r', d) < 32 && After(k', r', d + 1) < 32;
    AlphabetOf(k, r + d);
    AlphabetOf(k, r + d + 1);
    assert After(k, r, d) >= 32 || After(k, r, d + 1) >= 32;
    assert d == 0 || d == 1 || d == 2;
  }

  lemma SamePlace(k: nat, r: nat, k': nat, r': nat)
    requires k < CHUNKS && r + 3 < CHUNK && k' < CHUNKS && r' < CHUNK && (r' + 3 >= CHUNK ==> k' + 1 < CHUNKS)
    requires SameAfter(k, r, k', r')
    ensures k == k' && r % 3 == r' % 3
  {
    if r' >= 19 { AcrossChunks(k, r, k', r'); } else { WordInChunk(k, r, k', r'); }
  }

  lemma EarlierPlace(k: nat, r: nat, k': nat, r': nat)
    requires k < CHUNKS && r <= 4 && r' < CHUNK && CHUNK * k' + r' < CHUNK * k + r && k' <= k
    requires r' + 3 >= CHUNK ==> k' + 1 < CHUNKS
    requires SameAfter(k, r, k', r')
    ensures k' == k && r' == r - 3
  {
    SamePlace(k, r, k', r');
  }

  lemma EarlierChunk(k: nat, r: nat, k': nat, r': nat)
    requires r <= 4 && r' < CHUNK && CHUNK * k' + r' < CHUNK * k + r
    ensures k' <= k && (r' + 3 >= CHUNK ==> k' < k)
  {
  }

  lemma SameFourSameAfter(k: nat, r: nat, i: nat, k': nat, r': nat, q: nat)
    requires k < CHUNKS && r + 3 < CHUNK && i == CHUNK * k + r
    requires k' < CHUNKS && r' < CHUNK && q == CHUNK * k' + r' && (r' + 3 >= CHUNK ==> k' + 1 < CHUNKS)
    ensures i + 4 <= BODY && q + 4 <= BODY
    ensures SameFour(ManyMatches(), q, i) ==> SameAfter(k, r, k', r')
  {
    WordAfter(k, r, i);
    WordAfter(k', r', q);
  }

  /** The first words of a chunk occur nowhere earlier, but three places back. */
  lemma WordsOfChunk(k: nat, r: nat, i: nat, q: nat)
    requires k < CHUNKS && r <= 4 && i == CHUNK * k + r && q < i
    ensures i + 4 <= BODY && (SameFour(ManyMatches(), q, i) ==> q == i - 3 && r >= 3)
  {
    var k', r' := q / CHUNK, q % CHUNK;
    assert q == CHUNK * k' + r';
    EarlierChunk(k, r, k', r');
    SameFourSameAfter(k, r, i, k', r', q);
    if SameAfter(k, r, k', r') { EarlierPlace(k, r, k', r'); }
  }

  lemma TailUnique(t: nat, t': nat)
    requires t + 3 <= TAIL && t' + 3 <= TAIL
    requires TailByte(t) == TailByte(t') && TailByte(t + 1) == TailByte(t' + 1) && TailByte(t + 2) == TailByte(t' + 2)
    ensures t == t'
  {
    TailParity(t);
    TailParity(t');
    if t % 2 == 0 {
      PairUnique(t / 2, t' / 2);
    } else {
      PairUnique((t + 1) / 2, (t' + 1) / 2);
    }
  }

  lemma TailParity(t: nat)
    requires t < TAIL
    ensures TailByte(t) < 192 <==> t % 2 == 0
    ensures t == if t % 2 == 0 then 2 * (t / 2) else 2 * ((t + 1) / 2) - 1
  {
  }

  lemma TailPair(a: nat)
    requires 2 * a + 1 < TAIL
    ensures var p: int, q: int := TailByte(2 * a), TailByte(2 * a + 1); p == 128 + a % 32 < 192 && q == 192 + a / 32
  {
  }

  lemma PairUnique(a: nat, b: nat)
    requires 2 * a + 1 < TAIL && 2 * b + 1 < TAIL
    requires TailByte(2 * a) == TailByte(2 * b) && TailByte(2 * a + 1) == TailByte(2 * b + 1)
    ensures a == b
  {
    TailPair(a);
    TailPair(b);
  }

  lemma TailBytes(t: nat, i: nat)
    requires t + 4 <= TAIL && i == BODY + t
    ensures var src := ManyMatches();
            && i + 4 <= |src| && src[i] == TailByte(t) && src[i + 1] == TailByte(t + 1) && src[i + 2] == TailByte(t + 2)
  {
    var src := ManyMatches();
    assert src[i] == ByteAt(i) && src[i + 1] == ByteAt(i + 1) && src[i + 2] == ByteAt(i + 2);
  }

  /** No word of the tail occurs earlier. */
  lemma WordsOfTail(t: nat, i: nat, q: nat)
    requires t + 4 <= TAIL && i == BODY + t && q < i
    ensures i + 4 <= |ManyMatches()| && !SameFour(ManyMatches(), q, i)
  {
    var src := ManyMatches();
    TailBytes(t, i);
    if q < BODY {
      ByteAfter(q / CHUNK, q % CHUNK, 0);
      AlphabetOf(q / CHUNK, q % CHUNK);
    } else {
      TailBytes(q - BODY, q);
      if SameFour(src, q, i) { TailUnique(t, q - BODY); }
    }
  }

  lemma NoZeros(i: nat)
    requires i < BODY + TAIL
    ensures ManyMatches()[i] != 0
  {
    assert ManyMatches()[i] == ByteAt(i);
    if i < BODY { AlphabetOf(i / CHUNK, i % CHUNK); }
  }

  // ---------------------------------------------------------------- searching it

  /** Slot k of an entry: a position before i and its word, or the empty entry's zeros. */
  ghost predicate SlotOk(src: seq<byte>, e: HashEntry, k: nat, i: nat)
    requires k < 4
  {
    || (e.pos[k] == 0 && e.value[k] == 0)
    || (e.pos[k] < i && e.pos[k] + 4 <= |src| && e.value[k] == Load32(src, e.pos[k]))
  }

  ghost predicate HeldIn(src: seq<byte>, e: HashEntry, j: nat, n: nat)
    requires j + 4 <= |src|
  {
    exists k :: 0 <= k < n && k < 4 && e.pos[k] == j && e.value[k] == Load32(src, j)
  }

  /** A position is among the latest in the bucket of its word. */
  ghost predicate Held(src: seq<byte>, table: seq<HashEntry>, j: nat, i: nat)
    requires j + 4 <= |src| && |table| == ENCODE_HASH_VALUES && j < i <= j + 4
  {
    HeldIn(src, table[LzfseHash(Load32(src, j))], j, i - j)
  }

  /** Every slot is right, and the last four positions are in their buckets. */
  ghost predicate TableOk(src: seq<byte>, table: seq<HashEntry>, i: nat) {
    && i + 4 <= |src| && |table| == ENCODE_HASH_VALUES
    && (forall h, k :: 0 <= h < ENCODE_HASH_VALUES && 0 <= k < 4 ==> SlotOk(src, table[h], k, i))
    && forall j: nat :: j < i && i <= j + 4 ==> Held(src, table, j, i)
  }

  lemma HeldShifts(src: seq<byte>, e: HashEntry, j: nat, n: nat, i: nat, x: nat)
    requires j + 4 <= |src| && n < 4 && HeldIn(src, e, j, n)
    ensures HeldIn(src, e, j, n + 1)
    ensures HeldIn(src, HashEntry([i] + e.pos[..3], [x] + e.value[..3]), j, n + 1)
  {
    var k :| 0 <= k < n && k < 4 && e.pos[k] == j && e.value[k] == Load32(src, j);
    var e' := HashEntry([i] + e.pos[..3], [x] + e.value[..3]);
    assert e'.pos[k + 1] == j && e'.value[k + 1] == Load32(src, j);
  }

  lemma SlotsShift(src: seq<byte>, e: HashEntry, i: nat, next: nat)
    requires i + 4 <= |src| && next == i + 1 && forall k :: 0 <= k < 4 ==> SlotOk(src, e, k, i)
    ensures var e' := HashEntry([i] + e.pos[..3], [Load32(src, i)] + e.value[..3]);
            forall k :: 0 <= k < 4 ==> SlotOk(src, e', k, next)
  {
    var e' := HashEntry([i] + e.pos[..3], [Load32(src, i)] + e.value[..3]);
    forall k | 0 <= k < 4
      ensures SlotOk(src, e', k, next)
    {
      if k > 0 { assert SlotOk(src, e, k - 1, i); }
    }
  }

  lemma RememberKeeps(src: seq<byte>, table: seq<HashEntry>, i: nat)
    requires TableOk(src, table, i) && i + 5 <= |src|
    ensures TableOk(src, Remember(src, table, i), i + 1)
  {
    var x := Load32(src, i);
    var t, next := Remember(src, table, i), i + 1;
    SlotsShift(src, table[LzfseHash(x)], i, next);
    forall h, k | 0 <= h < ENCODE_HASH_VALUES && 0 <= k < 4
      ensures SlotOk(src, t[h], k, next)
    {
      assert SlotOk(src, table[h], k, i);
    }
    forall j: nat | j < next && next <= j + 4
      ensures Held(src, t, j, next)
    {
      var h := LzfseHash(Load32(src, j));
      if j < i {
        assert Held(src, table, j, i);
        HeldShifts(src, table[h], j, i - j, i, x);
      } else {
        assert t[h].pos[0] == j && t[h].value[0] == x;
      }
    }
  }

  lemma {:induction false} LengthIs(src: seq<byte>, i: nat, j: nat, M: nat, n: nat)
    requires j < i && M <= n < MAX_M && i + n < |src| && !Same(src, i + n, i - j)
    requires Repeats(src, i + M, i - j, n - M)
    ensures MatchLength(src, i, j, M) == n
    decreases n - M
  {
    if M == n {
    } else {
      assert Same(src, i + M, i - j);
      LengthIs(src, i, j, M + 1, n);
    }
  }

  /** A word that has not occurred is not found. */
  lemma {:induction false} NothingFound(src: seq<byte>, i: nat, e: HashEntry, k: nat)
    requires k <= 4 && OnlyAt(src, i, i) && src[i] != 0 && forall m :: 0 <= m < 4 ==> SlotOk(src, e, m, i)
    ensures BestOf(src, i, Load32(src, i), e, k) == Found(0, 0)
  {
    if k == 0 {
    } else {
      NothingFound(src, i, e, k - 1);
      assert SlotOk(src, e, k - 1, i);
      WordNonZero(src, i);
      var j := e.pos[k - 1];
      if j < i && j + 4 <= |src| { SameWord(src, j, i); }
    }
  }

  /** A word that has occurred once, at j, is found there and nowhere else. */
  lemma {:induction false} OneFound(src: seq<byte>, i: nat, j: nat, e: HashEntry, k: nat, n: nat)
    requires k <= 4 && j < i && i - j <= MAX_D && OnlyAt(src, i, j) && src[i] != 0
    requires forall m :: 0 <= m < 4 ==> SlotOk(src, e, m, i)
    requires 3 <= n == MatchLength(src, i, j, 0)
    ensures var f := BestOf(src, i, Load32(src, i), e, k); f == Found(0, 0) || f == Found(n, i - j)
    ensures SameFour(src, j, i) && HeldIn(src, e, j, k) ==> BestOf(src, i, Load32(src, i), e, k) == Found(n, i - j)
  {
    if k == 0 {
    } else {
      OneFound(src, i, j, e, k - 1, n);
      assert SlotOk(src, e, k - 1, i);
      WordNonZero(src, i);
      SameWord(src, j, i);
      var q := e.pos[k - 1];
      if q < i && q + 4 <= |src| { SameWord(src, q, i); }
    }
  }

  // ---------------------------------------------------------------- turns and runs

  /** A turn inside an emitted match, or at a word that has not occurred, only fills the table. */
  lemma QuietTurn(src: seq<byte>, s: State)
    requires TableOk(src, s.table, s.i) && s.i + 8 < |src| && s.pending.NoPending?
    requires s.i < s.litStart || (OnlyAt(src, s.i, s.i) && src[s.i] != 0)
    ensures Turn(src, s) == s.(table := Remember(src, s.table, s.i), i := s.i + 1)
  {
    if s.i >= s.litStart {
      NothingFound(src, s.i, s.table[LzfseHash(Load32(src, s.i))], 4);
    }
  }

  lemma {:induction false} QuietRun(src: seq<byte>, s: State, c: nat) returns (s': State)
    requires TableOk(src, s.table, s.i) && s.i <= c && c + 8 <= |src| && s.pending.NoPending?
    requires forall i :: s.i <= i < c ==> i < s.litStart || (OnlyAt(src, i, i) && src[i] != 0)
    ensures TableOk(src, s'.table, c) && s' == s.(table := s'.table, i := c)
    ensures Run(src, s) == Run(src, s')
    decreases c - s.i
  {
    s' := s;
    if s.i == c {
    } else {
      QuietTurn(src, s);
      RememberKeeps(src, s.table, s.i);
      s' := QuietRun(src, Turn(src, s), c);
    }
  }

  /** The candidate at a word that has occurred once, within the last four positions. */
  lemma OneCandidate(src: seq<byte>, s: State, j: nat, n: nat)
    requires TableOk(src, s.table, s.i) && s.i + 8 < |src| && s.litStart <= s.i
    requires j < s.i <= j + 4 && SameFour(src, j, s.i) && OnlyAt(src, s.i, j) && src[s.i] != 0
    requires 3 <= n == MatchLength(src, s.i, j, 0)
    ensures Candidate(src, s) == Found(n, s.i - j)
  {
    SameWord(src, j, s.i);
    var e := s.table[LzfseHash(Load32(src, s.i))];
    assert Held(src, s.table, j, s.i);
    var k :| 0 <= k < s.i - j && k < 4 && e.pos[k] == j && e.value[k] == Load32(src, j);
    assert HeldIn(src, e, j, 4);
    OneFound(src, s.i, j, e, 4, n);
  }

  // ---------------------------------------------------------------- the parse of the source

  /** One match of 19 bytes, 3 back, in each of the first k chunks. */
  function FirstMatches(k: nat): (ms: seq<Match>)
    ensures |ms| == k
    ensures forall q :: 0 <= q < k ==> ms[q] == Match(CHUNK * q + 3, 3, 19, 3)
  {
    seq(k, q requires 0 <= q => Match(CHUNK * q + 3, 3, 19, 3))
  }

  /** The state at the start of chunk k. */
  ghost predicate AtChunk(s: State, k: nat) {
    && s.i == s.litStart == CHUNK * k && s.pending.NoPending? && s.ms == FirstMatches(k)
    && TableOk(ManyMatches(), s.table, s.i)
  }

  lemma ChunkCycles(k: nat, r: nat, i: nat)
    requires k < CHUNKS && 3 <= r < CHUNK && i == CHUNK * k + r
    ensures i < BODY && Same(ManyMatches(), i, 3)
  {
    ByteAfter(k, r, 0);
    ByteAfter(k, r - 3, 0);
    assert ChunkByte(k, r) == ChunkByte(k, r - 3);
  }

  lemma ChunkEnds(k: nat)
    requires k < CHUNKS
    ensures CHUNK * k + CHUNK < |ManyMatches()| && !Same(ManyMatches(), CHUNK * k + CHUNK, 3)
  {
    var src := ManyMatches();
    ByteAfter(k, 19, 0);
    AlphabetOf(k, 19);
    if k + 1 < CHUNKS {
      ByteAfter(k + 1, 0, 0);
      AlphabetOf(k + 1, 0);
    } else {
      TailBytes(0, BODY);
    }
  }

  lemma ChunkRepeats(k: nat, r: nat, i: nat)
    requires k < CHUNKS && 3 <= r <= 4 && i == CHUNK * k + r
    ensures Repeats(ManyMatches(), i, 3, CHUNK - r)
  {
    ByteAfter(k, 21, 0);
    forall m: nat | i <= m < i + (CHUNK - r)
      ensures Same(ManyMatches(), m, 3)
    {
      ChunkCycles(k, m - CHUNK * k, m);
    }
  }

  /** From the fourth byte of a chunk on, its cycle repeats to its end. */
  lemma ChunkMatch(k: nat, r: nat, i: nat)
    requires k < CHUNKS && 3 <= r <= 4 && i == CHUNK * k + r
    ensures i < BODY && MatchLength(ManyMatches(), i, i - 3, 0) == CHUNK - r
  {
    ByteAfter(k, r, 0);
    ChunkRepeats(k, r, i);
    ChunkEnds(k);
    LengthIs(ManyMatches(), i, i - 3, 0, CHUNK - r);
  }

  /** What is found at bytes 3 and 4 of a chunk. */
  lemma ChunkCandidate(s: State, k: nat, r: nat)
    requires k < CHUNKS && 3 <= r <= 4 && s.i == CHUNK * k + r && s.litStart <= s.i
    requires TableOk(ManyMatches(), s.table, s.i)
    ensures s.i < BODY && Candidate(ManyMatches(), s) == Found(CHUNK - r, 3)
  {
    var src, i := ManyMatches(), s.i;
    ChunkMatch(k, r, i);
    NoZeros(i);
    SameWordThreeBack(k, r, i);
    forall q: nat | q < i && q != i - 3
      ensures !SameFour(src, q, i)
    {
      WordsOfChunk(k, r, i, q);
    }
    OneCandidate(src, s, i - 3, CHUNK - r);
  }

  lemma SameWordThreeBack(k: nat, r: nat, i: nat)
    requires k < CHUNKS && 3 <= r <= 4 && i == CHUNK * k + r
    ensures i + 4 <= BODY && SameFour(ManyMatches(), i - 3, i)
  {
    ChunkCycles(k, r, i);
    ChunkCycles(k, r + 1, i + 1);
    ChunkCycles(k, r + 2, i + 2);
    ChunkCycles(k, r + 3, i + 3);
    FourThreeBack(ManyMatches(), i);
  }

  lemma FourThreeBack(src: seq<byte>, i: nat)
    requires Same(src, i, 3) && Same(src, i + 1, 3) && Same(src, i + 2, 3) && Same(src, i + 3, 3)
    ensures SameFour(src, i - 3, i)
  {
  }

  lemma ChunkStart(k: nat, i: nat)
    requires k < CHUNKS && CHUNK * k <= i < CHUNK * k + 3
    ensures OnlyAt(ManyMatches(), i, i) && ManyMatches()[i] != 0
  {
    var src := ManyMatches();
    NoZeros(i);
    WordAfter(k, i - CHUNK * k, i);
    forall q: nat | q < i
      ensures !SameFour(src, q, i)
    {
      WordsOfChunk(k, i - CHUNK * k, i, q);
    }
  }

  lemma PendingTurn(src: seq<byte>, s: State)
    requires TableOk(src, s.table, s.i) && s.i + 8 < |src| && s.pending.NoPending?
    requires 3 <= Candidate(src, s).M < ENCODE_GOOD_MATCH
    ensures var f := Candidate(src, s);
            Turn(src, s) == s.(table := Remember(src, s.table, s.i), i := s.i + 1, pending := Pending(s.i, f.M, f.D))
  {
  }

  lemma EmittingTurn(src: seq<byte>, s: State)
    requires TableOk(src, s.table, s.i) && s.i + 8 < |src| && s.pending.Pending?
    requires s.i < s.pending.pos + s.pending.M && s.pending.M < ENCODE_GOOD_MATCH
    requires 3 <= Candidate(src, s).M < s.pending.M
    ensures Turn(src, s) == Emit(s).(table := Remember(src, s.table, s.i), i := s.i + 1)
  {
  }

  lemma MatchesGrow(k: nat)
    ensures FirstMatches(k) + [Match(CHUNK * k + 3, 3, 19, 3)] == FirstMatches(k + 1)
  {
  }

  /** The first three bytes of a chunk are new. */
  lemma EnterChunk(s: State, k: nat) returns (s': State)
    requires k < CHUNKS && AtChunk(s, k)
    ensures s' == s.(table := s'.table, i := CHUNK * k + 3) && TableOk(ManyMatches(), s'.table, s'.i)
    ensures Run(ManyMatches(), s) == Run(ManyMatches(), s')
  {
    forall i | s.i <= i < CHUNK * k + 3
      ensures OnlyAt(ManyMatches(), i, i) && ManyMatches()[i] != 0
    {
      ChunkStart(k, i);
    }
    s' := QuietRun(ManyMatches(), s, CHUNK * k + 3);
  }

  /** At its fourth byte a match is found and kept pending. */
  lemma FindInChunk(s: State, k: nat) returns (s': State)
    requires k < CHUNKS && s.i == CHUNK * k + 3 && s.litStart == CHUNK * k && s.pending.NoPending?
    requires TableOk(ManyMatches(), s.table, s.i)
    ensures s' == s.(table := s'.table, i := s.i + 1, pending := Pending(s.i, 19, 3))
    ensures TableOk(ManyMatches(), s'.table, s'.i) && Run(ManyMatches(), s) == Run(ManyMatches(), s')
  {
    var src := ManyMatches();
    ChunkCandidate(s, k, 3);
    PendingTurn(src, s);
    RememberKeeps(src, s.table, s.i);
    s' := Turn(src, s);
  }

  /** At the next a shorter one is found, and the pending match is emitted. */
  lemma EmitInChunk(s: State, k: nat) returns (s': State)
    requires k < CHUNKS && s.i == CHUNK * k + 4 && s.litStart == CHUNK * k && s.ms == FirstMatches(k)
    requires s.pending == Pending(CHUNK * k + 3, 19, 3) && TableOk(ManyMatches(), s.table, s.i)
    ensures s'.i == CHUNK * k + 5 && s'.litStart == CHUNK * (k + 1) && s'.pending.NoPending?
    ensures s'.ms == FirstMatches(k + 1) && TableOk(ManyMatches(), s'.table, s'.i)
    ensures Run(ManyMatches(), s) == Run(ManyMatches(), s')
  {
    var src := ManyMatches();
    ChunkCandidate(s, k, 4);
    EmittingTurn(src, s);
    RememberKeeps(src, s.table, s.i);
    MatchesGrow(k);
    s' := Turn(src, s);
  }

  lemma LeaveChunk(s: State, k: nat) returns (s': State)
    requires k < CHUNKS && s.i == CHUNK * k + 5 && s.litStart == CHUNK * (k + 1) && s.pending.NoPending?
    requires s.ms == FirstMatches(k + 1) && TableOk(ManyMatches(), s.table, s.i)
    ensures AtChunk(s', k + 1) && Run(ManyMatches(), s) == Run(ManyMatches(), s')
  {
    s' := QuietRun(ManyMatches(), s, CHUNK * (k + 1));
  }

  lemma {:induction false} AllChunks(s: State, k: nat) returns (s': State)
    requires k <= CHUNKS && AtChunk(s, k)
    ensures AtChunk(s', CHUNKS) && Run(ManyMatches(), s) == Run(ManyMatches(), s')
    decreases CHUNKS - k
  {
    s' := s;
    if k == CHUNKS {
    } else {
      s' := EnterChunk(s', k);
      s' := FindInChunk(s', k);
      s' := EmitInChunk(s', k);
      s' := LeaveChunk(s', k);
      s' := AllChunks(s', k + 1);
    }
  }

  lemma StartsAtChunk()
    ensures AtChunk(Start(), 0)
  {
    var src, t := ManyMatches(), Start().table;
    forall h, k | 0 <= h < ENCODE_HASH_VALUES && 0 <= k < 4
      ensures SlotOk(src, t[h], k, 0)
    {
      assert t[h] == EMPTY_ENTRY;
    }
  }

  /** The match finder gives exactly one match of 19 bytes in each chunk and none in the tail. */
  lemma ParseOfManyMatches()
    ensures Parse(ManyMatches()) == FirstMatches(CHUNKS)
  {
    var src := ManyMatches();
    StartsAtChunk();
    var s := AllChunks(Start(), 0);
    forall i | BODY <= i < |src| - 8
      ensures OnlyAt(src, i, i) && src[i] != 0
    {
      TailStart(i);
    }
    var s' := QuietRun(src, s, |src| - 8);
  }

  lemma TailStart(i: nat)
    requires BODY <= i < BODY + TAIL - 8
    ensures OnlyAt(ManyMatches(), i, i) && ManyMatches()[i] != 0
  {
    NoZeros(i);
    forall q: nat | q < i
      ensures !SameFour(ManyMatches(), q, i)
    {
      WordsOfTail(i - BODY, i, q);
    }
  }

  // ---------------------------------------------------------------- the splitter's view

  lemma {:induction false} Counts(k: nat)
    requires k <= CHUNKS
    ensures var all := FirstMatches(CHUNKS);
            && Splitter.LitsBefore(all, 0, 0, k) == 3 * k && Splitter.RecordsBefore(all, 0, 0, k) == k
            && Splitter.EndAt(all, 0, 0, k) == CHUNK * k
  {
    if k == 0 {
    } else {
      Counts(k - 1);
    }
  }

  /** The matches fit one block with the given number of records, those of its trailing run included. */
  ghost predicate FitsOneBlock(src: seq<byte>, all: seq<Match>, records: nat) {
    && src != [] && all != [] && Splitter.RestFits(src, all, 0, 0)
    && records == Splitter.RecordsBefore(all, 0, 0, |all|)
                  + Splitter.TrailingRecords(|src| - Splitter.EndAt(all, 0, 0, |all|))
  }

  /** It all fits one block, and the trailing run of 640 bytes takes three more records. */
  lemma ManyRecords()
    ensures FitsOneBlock(ManyMatches(), FirstMatches(CHUNKS), 10001)
  {
    Counts(CHUNKS);
    Splitter.TrailingRecordsIsCeiling(TAIL);
  }
}
