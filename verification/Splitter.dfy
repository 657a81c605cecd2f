/** compressLZFSE's block splitter: four interacting caps on one block. */
module Splitter {
  import opened Bits
  import opened Lz
  import opened Lmd
  import opened Records
  import opened BlockSpec

  const MAX_BLOCK_RAW_BYTES: nat := 0x8_0000
  const MAX_BLOCK_LITERALS: nat := LITERALS_PER_BLOCK - 8
  const RECORD_BUDGET: nat := MATCHES_PER_BLOCK - 2

  // ---------------------------------------------------------------- a stretch of the match list

  /** Where the literals before match k of a block start: after match k - 1, or at the block's start. */
  function EndAt(all: seq<Match>, start: nat, first: nat, k: nat): nat
    requires first <= k <= |all|
  {
    if k == first then start else all[k - 1].pos + all[k - 1].M
  }

  /** Match k lies after its predecessor and is a verified copy in range. Its L is not looked at. */
  ghost predicate MatchOk(src: seq<byte>, all: seq<Match>, start: nat, first: nat, k: nat)
    requires first <= k < |all|
  {
    && EndAt(all, start, first, k) <= all[k].pos
    && 1 <= all[k].M <= MAX_M && all[k].D <= MAX_D && Repeats(src, all[k].pos, all[k].D, all[k].M)
  }

  /** Matches first..last lie one after the other in src[start..end]. */
  ghost predicate Placed(src: seq<byte>, all: seq<Match>, start: nat, first: nat, last: nat, end: nat) {
    && first <= last <= |all| && start <= EndAt(all, start, first, last) <= end <= |src|
    && forall k :: first <= k < last ==> MatchOk(src, all, start, first, k)
  }

  /** Literals before match k of the block. */
  function LitsBefore(all: seq<Match>, start: nat, first: nat, k: nat): int
    requires first <= k <= |all|
    decreases k
  {
    if k == first then 0
    else LitsBefore(all, start, first, k - 1) + all[k - 1].pos - EndAt(all, start, first, k - 1)
  }

  /** Extra records for a run of L literals. */
  function Splits(L: int): nat
    decreases L
  {
    if L > MAX_L then 1 + Splits(L - MAX_L) else 0
  }

  /** Records emitted for the matches before match k of the block. */
  function RecordsBefore(all: seq<Match>, start: nat, first: nat, k: nat): nat
    requires first <= k <= |all|
    decreases k
  {
    if k == first then 0
    else
      RecordsBefore(all, start, first, k - 1) + 1 + Splits(all[k - 1].pos - EndAt(all, start, first, k - 1))
  }

  /** Records for a trailing run: its length over 315, rounded up. */
  function TrailingRecords(t: int): nat {
    if t <= 0 then 0 else 1 + Splits(t)
  }

  lemma {:induction false} SplitsIsQuotient(L: nat)
    ensures Splits(L) == if L == 0 then 0 else (L - 1) / MAX_L
  {
    if L <= MAX_L {
    } else {
      SplitsIsQuotient(L - MAX_L);
    }
  }

  /** At most 2 records for a trailing run of up to 630 bytes. */
  lemma TrailingRecordsIsCeiling(t: nat)
    ensures TrailingRecords(t) == (t + MAX_L - 1) / MAX_L
    ensures t <= 630 <==> TrailingRecords(t) <= 2
  {
    SplitsIsQuotient(t);
  }

  lemma {:induction false} SplitsMono(a: int, b: int)
    requires a <= b
    ensures Splits(a) <= Splits(b)
    decreases b
  {
    if a <= MAX_L {
    } else {
      SplitsMono(a - MAX_L, b - MAX_L);
    }
  }

  lemma {:induction false} EndAtGrows(src: seq<byte>, all: seq<Match>, start: nat, first: nat, last: nat, end: nat,
                                      k: nat)
    requires Placed(src, all, start, first, last, end) && first <= k <= last
    ensures start <= EndAt(all, start, first, k) <= EndAt(all, start, first, last)
    ensures k < last ==> EndAt(all, start, first, k) < EndAt(all, start, first, last)
    decreases last - k
  {
    if k == last {
    } else {
      assert MatchOk(src, all, start, first, k);
      EndAtGrows(src, all, start, first, last, end, k + 1);
    }
    if k > first { StartAtMost(src, all, start, first, last, end, k); }
  }

  lemma {:induction false} StartAtMost(src: seq<byte>, all: seq<Match>, start: nat, first: nat, last: nat, end: nat,
                                       k: nat)
    requires Placed(src, all, start, first, last, end) && first <= k <= last
    ensures start <= EndAt(all, start, first, k)
    decreases k
  {
    if k == first {
    } else {
      assert MatchOk(src, all, start, first, k - 1);
      StartAtMost(src, all, start, first, last, end, k - 1);
    }
  }

  /** A block that ends after match cut - 1. */
  lemma Cutting(src: seq<byte>, all: seq<Match>, start: nat, first: nat, last: nat, end: nat, cut: nat)
    requires Placed(src, all, start, first, last, end) && first <= cut <= last
    ensures Placed(src, all, start, first, cut, EndAt(all, start, first, cut))
    ensures cut < last ==> EndAt(all, start, first, cut) <= all[cut].pos
  {
    EndAtGrows(src, all, start, first, last, end, cut);
    if cut < last { assert MatchOk(src, all, start, first, cut); }
  }

  /** What is left of the list after a block is placed from the block's end on. */
  lemma Remainder(src: seq<byte>, all: seq<Match>, start: nat, first: nat, last: nat, end: nat)
    requires Placed(src, all, start, first, |all|, |src|) && first <= last <= |all|
    requires EndAt(all, start, first, last) <= end <= |src| && (last < |all| ==> end <= all[last].pos)
    ensures Placed(src, all, end, last, |all|, |src|)
  {
    forall k | last <= k < |all|
      ensures MatchOk(src, all, end, last, k)
    {
      assert MatchOk(src, all, start, first, k);
    }
    if last < |all| { RemainderEnd(src, all, start, first, last, end); }
  }

  lemma RemainderEnd(src: seq<byte>, all: seq<Match>, start: nat, first: nat, last: nat, end: nat)
    requires Placed(src, all, start, first, |all|, |src|) && first <= last < |all|
    requires end <= all[last].pos
    ensures end <= EndAt(all, end, last, |all|) <= |src|
  {
    EndAtGrows(src, all, start, first, |all|, |src|, last + 1);
  }

  // ---------------------------------------------------------------- the caps

  /** The candidate block first..last, src[start..end]: no match straddles its end. */
  ghost predicate Candidate(src: seq<byte>, all: seq<Match>, start: nat, first: nat, last: nat, end: nat) {
    && Placed(src, all, start, first, |all|, |src|) && Placed(src, all, start, first, last, end)
    && start < end && (last < |all| ==> end <= all[last].pos)
  }

  /** After the raw-byte cap: a candidate, or a literal-only span of the full cap that the next match overshoots. */
  ghost predicate RawCapped(src: seq<byte>, all: seq<Match>, start: nat, first: nat, last: nat, end: nat) {
    && end - start <= MAX_BLOCK_RAW_BYTES
    && (|| Candidate(src, all, start, first, last, end)
        || (&& Placed(src, all, start, first, |all|, |src|) && last == first && end == start + MAX_BLOCK_RAW_BYTES
            && end <= |src|
            && (first < |all| ==> all[first].pos + all[first].M > start + MAX_BLOCK_RAW_BYTES)))
  }

  /** Where a cap ends a block: its matches go up to last, its bytes up to end. */
  datatype Cut = Cut(last: nat, end: nat)

  /** At most 10000 matches; the block ends where the next one's first match begins. */
  function MatchCut(n: nat, all: seq<Match>, first: nat): (c: Cut)
    requires first <= |all|
    ensures first <= c.last <= |all|
  {
    var last: nat := Min(first + MATCHES_PER_BLOCK, |all|);
    Cut(last, if last < |all| then all[last].pos else n)
  }

  lemma MatchCutKeeps(src: seq<byte>, all: seq<Match>, start: nat, first: nat)
    requires Placed(src, all, start, first, |all|, |src|) && start < |src|
    ensures var c := MatchCut(|src|, all, first);
            Candidate(src, all, start, first, c.last, c.end) && c.last <= first + MATCHES_PER_BLOCK
  {
    var last := MatchCut(|src|, all, first).last;
    if last < |all| {
      assert MatchOk(src, all, start, first, last);
      EndAtGrows(src, all, start, first, |all|, |src|, last);
      Cutting(src, all, start, first, |all|, |src|, last);
      assert MatchOk(src, all, start, first, first);
      EndAtGrows(src, all, start, first, last, EndAt(all, start, first, last), first);
    }
  }

  // ---------------------------------------------------------------- the raw-byte cap

  /** The first match from k on that ends past the cap. */
  function RawStop(all: seq<Match>, start: nat, k: nat, last: nat): (cut: nat)
    requires k <= last <= |all|
    ensures k <= cut <= last
    decreases last - k
  {
    if k < last && all[k].pos + all[k].M - start <= MAX_BLOCK_RAW_BYTES then RawStop(all, start, k + 1, last) else k
  }

  lemma {:induction false} RawStopFits(all: seq<Match>, start: nat, first: nat, k: nat, last: nat)
    requires first <= k <= last <= |all| && EndAt(all, start, first, k) - start <= MAX_BLOCK_RAW_BYTES
    ensures var cut := RawStop(all, start, k, last);
            && EndAt(all, start, first, cut) - start <= MAX_BLOCK_RAW_BYTES
            && (cut < last ==> all[cut].pos + all[cut].M - start > MAX_BLOCK_RAW_BYTES)
    decreases last - k
  {
    if k == last || all[k].pos + all[k].M - start > MAX_BLOCK_RAW_BYTES {
    } else {
      RawStopFits(all, start, first, k + 1, last);
    }
  }

  /** At most 2^19 raw bytes: back to the last whole match, or a literal-only span. */
  function RawCut(all: seq<Match>, start: nat, first: nat, c: Cut): (r: Cut)
    requires first <= c.last <= |all|
    ensures first <= r.last <= c.last
  {
    if c.end - start <= MAX_BLOCK_RAW_BYTES then c
    else
      var cut := RawStop(all, start, first, c.last);
      Cut(cut, if cut > first then EndAt(all, start, first, cut) else start + MAX_BLOCK_RAW_BYTES)
  }

  lemma RawCutKeeps(src: seq<byte>, all: seq<Match>, start: nat, first: nat, c: Cut)
    requires Candidate(src, all, start, first, c.last, c.end)
    ensures var r := RawCut(all, start, first, c); RawCapped(src, all, start, first, r.last, r.end)
  {
    if c.end - start > MAX_BLOCK_RAW_BYTES {
      RawStopFits(all, start, first, first, c.last);
      var cut := RawStop(all, start, first, c.last);
      if cut > first {
        Cutting(src, all, start, first, c.last, c.end, cut);
        EndAtGrows(src, all, start, first, cut, EndAt(all, start, first, cut), first);
      }
    }
  }

  // ---------------------------------------------------------------- the literal cap

  /** Literals of the block: those before its matches and those after the last. */
  function BlockLits(all: seq<Match>, start: nat, first: nat, last: nat, end: nat): int
    requires first <= last <= |all|
  {
    LitsBefore(all, start, first, last) + end - EndAt(all, start, first, last)
  }

  /** Each run is at most the literals before the end of it. */
  lemma {:induction false} RunsWithin(src: seq<byte>, all: seq<Match>, start: nat, first: nat, last: nat, end: nat,
                                      k: nat)
    requires Placed(src, all, start, first, last, end) && first <= k <= last
    ensures 0 <= LitsBefore(all, start, first, k) <= LitsBefore(all, start, first, last)
    ensures k < last ==> all[k].pos - EndAt(all, start, first, k) <= LitsBefore(all, start, first, last)
    decreases last - k
  {
    if k == last {
    } else {
      assert MatchOk(src, all, start, first, k);
      RunsWithin(src, all, start, first, last, end, k + 1);
    }
    LitsNonNegative(src, all, start, first, last, end, k);
  }

  lemma {:induction false} LitsNonNegative(src: seq<byte>, all: seq<Match>, start: nat, first: nat, last: nat,
                                           end: nat, k: nat)
    requires Placed(src, all, start, first, last, end) && first <= k <= last
    ensures 0 <= LitsBefore(all, start, first, k)
    decreases k
  {
    if k == first {
    } else {
      assert MatchOk(src, all, start, first, k - 1);
      LitsNonNegative(src, all, start, first, last, end, k - 1);
    }
  }

  /** The first match from k on whose run passes the cap. */
  function LiteralStop(all: seq<Match>, start: nat, first: nat, k: nat, last: nat): (cut: nat)
    requires first <= k <= last <= |all|
    ensures k <= cut <= last
    decreases last - k
  {
    if k < last && LitsBefore(all, start, first, k + 1) <= MAX_BLOCK_LITERALS
    then LiteralStop(all, start, first, k + 1, last) else k
  }

  lemma {:induction false} LiteralStopFits(all: seq<Match>, start: nat, first: nat, k: nat, last: nat)
    requires first <= k <= last <= |all| && LitsBefore(all, start, first, k) <= MAX_BLOCK_LITERALS
    ensures var cut := LiteralStop(all, start, first, k, last);
            && LitsBefore(all, start, first, cut) <= MAX_BLOCK_LITERALS
            && (cut < last ==> LitsBefore(all, start, first, cut + 1) > MAX_BLOCK_LITERALS)
    decreases last - k
  {
    if k == last || LitsBefore(all, start, first, k + 1) > MAX_BLOCK_LITERALS {
    } else {
      LiteralStopFits(all, start, first, k + 1, last);
    }
  }

  /** At most 39992 literals: back to the last whole match, or a literal-only span, or a shorter trailing run. */
  function LiteralCut(all: seq<Match>, start: nat, first: nat, c: Cut): (r: Cut)
    requires first <= c.last <= |all|
    ensures first <= r.last <= c.last
  {
    var cut := LiteralStop(all, start, first, first, c.last);
    if cut < c.last then Cut(cut, if cut > first then EndAt(all, start, first, cut) else start + MAX_BLOCK_LITERALS)
    else if BlockLits(all, start, first, c.last, c.end) > MAX_BLOCK_LITERALS then
      Cut(cut, Max(EndAt(all, start, first, cut) + MAX_BLOCK_LITERALS - LitsBefore(all, start, first, cut), 0))
    else c
  }

  /** The literal cap also repairs a literal-only span of 2^19 bytes that would cut a match. */
  lemma LiteralCutKeeps(src: seq<byte>, all: seq<Match>, start: nat, first: nat, c: Cut)
    requires RawCapped(src, all, start, first, c.last, c.end)
    ensures var r := LiteralCut(all, start, first, c);
            && Candidate(src, all, start, first, r.last, r.end) && r.end <= c.end
            && BlockLits(all, start, first, r.last, r.end) <= MAX_BLOCK_LITERALS
            && (BlockLits(all, start, first, c.last, c.end) <= MAX_BLOCK_LITERALS ==> r == c)
  {
    var cut := LiteralStop(all, start, first, first, c.last);
    LiteralStopFits(all, start, first, first, c.last);
    if cut < c.last {
      RunsWithin(src, all, start, first, c.last, c.end, cut + 1);
      EarlierCut(src, all, start, first, c, cut);
    } else if BlockLits(all, start, first, c.last, c.end) > MAX_BLOCK_LITERALS {
      ShorterTail(src, all, start, first, c);
    }
  }

  lemma EarlierCut(src: seq<byte>, all: seq<Match>, start: nat, first: nat, c: Cut, cut: nat)
    requires RawCapped(src, all, start, first, c.last, c.end) && first <= cut < c.last
    requires LitsBefore(all, start, first, cut) <= MAX_BLOCK_LITERALS < LitsBefore(all, start, first, cut + 1)
    ensures var end := if cut > first then EndAt(all, start, first, cut) else start + MAX_BLOCK_LITERALS;
            && Candidate(src, all, start, first, cut, end) && end <= c.end
            && BlockLits(all, start, first, cut, end) <= MAX_BLOCK_LITERALS
  {
    assert MatchOk(src, all, start, first, cut);
    Cutting(src, all, start, first, c.last, c.end, cut);
    EndAtGrows(src, all, start, first, c.last, c.end, cut);
    EndAtGrows(src, all, start, first, c.last, c.end, cut + 1);
    if cut > first { EndAtGrows(src, all, start, first, cut, EndAt(all, start, first, cut), first); }
  }

  lemma ShorterTail(src: seq<byte>, all: seq<Match>, start: nat, first: nat, c: Cut)
    requires RawCapped(src, all, start, first, c.last, c.end)
    requires LitsBefore(all, start, first, c.last) <= MAX_BLOCK_LITERALS
    requires BlockLits(all, start, first, c.last, c.end) > MAX_BLOCK_LITERALS
    ensures var end := EndAt(all, start, first, c.last) + MAX_BLOCK_LITERALS - LitsBefore(all, start, first, c.last);
            && 0 <= end <= c.end && Candidate(src, all, start, first, c.last, end)
            && BlockLits(all, start, first, c.last, end) <= MAX_BLOCK_LITERALS
  {
    LitsNonNegative(src, all, start, first, c.last, c.end, c.last);
    if first < c.last { EndAtGrows(src, all, start, first, c.last, EndAt(all, start, first, c.last), first); }
    if first < |all| { assert MatchOk(src, all, start, first, first); }
  }

  // ---------------------------------------------------------------- the record cap

  lemma {:induction false} RecordsGrow(all: seq<Match>, start: nat, first: nat, k: nat, last: nat)
    requires first <= k <= last <= |all|
    ensures RecordsBefore(all, start, first, k) <= RecordsBefore(all, start, first, last)
    decreases last - k
  {
    if k == last {
    } else {
      RecordsGrow(all, start, first, k + 1, last);
    }
  }

  /** The first match of a block always fits the record budget: its run is at most 39992 literals. */
  lemma FirstMatchFits(src: seq<byte>, all: seq<Match>, start: nat, first: nat, last: nat, end: nat)
    requires Candidate(src, all, start, first, last, end) && first < last
    requires BlockLits(all, start, first, last, end) <= MAX_BLOCK_LITERALS
    ensures 1 + Splits(all[first].pos - start) <= RECORD_BUDGET
  {
    RunsWithin(src, all, start, first, last, end, first);
    SplitsMono(all[first].pos - start, MAX_BLOCK_LITERALS);
    SplitsIsQuotient(MAX_BLOCK_LITERALS);
  }

  /** The first match from k on whose records pass the budget. */
  function RecordStop(all: seq<Match>, start: nat, first: nat, k: nat, last: nat): (cut: nat)
    requires first <= k <= last <= |all|
    ensures k <= cut <= last
    decreases last - k
  {
    if k < last && RecordsBefore(all, start, first, k + 1) <= RECORD_BUDGET
    then RecordStop(all, start, first, k + 1, last) else k
  }

  lemma {:induction false} RecordStopFits(all: seq<Match>, start: nat, first: nat, k: nat, last: nat)
    requires first <= k <= last <= |all| && RecordsBefore(all, start, first, k) <= RECORD_BUDGET
    ensures var cut := RecordStop(all, start, first, k, last);
            && RecordsBefore(all, start, first, cut) <= RECORD_BUDGET
            && (cut < last ==> RecordsBefore(all, start, first, cut + 1) > RECORD_BUDGET)
    decreases last - k
  {
    if k == last || RecordsBefore(all, start, first, k + 1) > RECORD_BUDGET {
    } else {
      RecordStopFits(all, start, first, k + 1, last);
    }
  }

  /** At most 9998 records for the matches of the block; records of a trailing run are not counted. */
  function RecordCut(all: seq<Match>, start: nat, first: nat, c: Cut): (r: Cut)
    requires first <= c.last <= |all|
    ensures first <= r.last <= c.last
  {
    var cut := RecordStop(all, start, first, first, c.last);
    if first < cut < c.last then Cut(cut, EndAt(all, start, first, cut)) else c
  }

  lemma RecordCutKeeps(src: seq<byte>, all: seq<Match>, start: nat, first: nat, c: Cut)
    requires Candidate(src, all, start, first, c.last, c.end)
    requires BlockLits(all, start, first, c.last, c.end) <= MAX_BLOCK_LITERALS
    ensures var r := RecordCut(all, start, first, c);
            && Candidate(src, all, start, first, r.last, r.end) && r.end <= c.end
            && BlockLits(all, start, first, r.last, r.end) <= MAX_BLOCK_LITERALS
            && RecordsBefore(all, start, first, r.last) <= RECORD_BUDGET && (r.last == first ==> c.last == first)
            && (RecordsBefore(all, start, first, c.last) <= RECORD_BUDGET ==> r == c)
  {
    var cut := RecordStop(all, start, first, first, c.last);
    RecordStopFits(all, start, first, first, c.last);
    if first < c.last { FirstMatchFits(src, all, start, first, c.last, c.end); }
    if cut < c.last {
      RecordsGrow(all, start, first, cut + 1, c.last);
      Cutting(src, all, start, first, c.last, c.end, cut);
      EndAtGrows(src, all, start, first, c.last, c.end, cut);
      RunsWithin(src, all, start, first, c.last, c.end, cut);
      if cut > first { EndAtGrows(src, all, start, first, cut, EndAt(all, start, first, cut), first); }
    }
  }

  // ---------------------------------------------------------------- the blocks of a source

  /** What every block keeps: no match cut, non-empty, and all the limits but the one on trailing records. */
  ghost predicate BlockFits(src: seq<byte>, all: seq<Match>, start: nat, first: nat, last: nat, end: nat) {
    && Candidate(src, all, start, first, last, end)
    && end - start <= MAX_BLOCK_RAW_BYTES && BlockLits(all, start, first, last, end) <= MAX_BLOCK_LITERALS
    && RecordsBefore(all, start, first, last) <= RECORD_BUDGET
  }

  /** The whole rest of the source within every cap. */
  ghost predicate RestFits(src: seq<byte>, all: seq<Match>, start: nat, first: nat) {
    && first <= |all| <= first + MATCHES_PER_BLOCK && |src| - start <= MAX_BLOCK_RAW_BYTES
    && BlockLits(all, start, first, |all|, |src|) <= MAX_BLOCK_LITERALS
    && RecordsBefore(all, start, first, |all|) <= RECORD_BUDGET
  }

  /** Where the block that begins at start, with match first, ends: the four caps in turn. */
  function NextCut(n: nat, all: seq<Match>, start: nat, first: nat): (c: Cut)
    requires first <= |all|
    ensures first <= c.last <= |all|
  {
    RecordCut(all, start, first, LiteralCut(all, start, first, RawCut(all, start, first, MatchCut(n, all, first))))
  }

  /** A block never cuts a match and keeps every cap; what fits whole is not cut at all. */
  lemma NextCutKeeps(src: seq<byte>, all: seq<Match>, start: nat, first: nat)
    requires Placed(src, all, start, first, |all|, |src|) && start < |src|
    ensures var c := NextCut(|src|, all, start, first);
            && BlockFits(src, all, start, first, c.last, c.end) && Placed(src, all, c.end, c.last, |all|, |src|)
            && (RestFits(src, all, start, first) ==> c == Cut(|all|, |src|))
  {
    var c0 := MatchCut(|src|, all, first);
    var c1 := RawCut(all, start, first, c0);
    var c2 := LiteralCut(all, start, first, c1);
    var c3 := RecordCut(all, start, first, c2);
    MatchCutKeeps(src, all, start, first);
    RawCutKeeps(src, all, start, first, c0);
    LiteralCutKeeps(src, all, start, first, c1);
    RecordCutKeeps(src, all, start, first, c2);
    Remainder(src, all, start, first, c3.last, c3.end);
  }

  /** A block of the matches first..k breaks a cap. */
  predicate OverCap(all: seq<Match>, start: nat, first: nat, k: nat)
    requires first <= k <= |all|
  {
    || k - first > 10000 || EndAt(all, start, first, k) - start > 524288
    || LitsBefore(all, start, first, k) > 39992 || RecordsBefore(all, start, first, k) > 9998
  }

  /** Where the match after a block begins, or the source ends. */
  function NextPos(n: nat, all: seq<Match>, last: nat): nat
    requires last <= |all|
  {
    if last < |all| then all[last].pos else n
  }

  /** One match more breaks a cap, and more bytes do: the block ends at the next match, full, or after a whole match. */
  ghost predicate Maximal(n: nat, all: seq<Match>, start: nat, first: nat, c: Cut)
    requires first <= c.last <= |all|
  {
    && (c.last < |all| ==> OverCap(all, start, first, c.last + 1))
    && (|| c.end == NextPos(n, all, c.last) || BlockLits(all, start, first, c.last, c.end) == 39992
        || (&& c.end == EndAt(all, start, first, c.last) && c.last > first
            && (c.last < |all| || n - start > 524288)))
  }

  /** A literal-only span of the full raw cap, which the literal cap is still to shorten. */
  ghost predicate FullSpan(all: seq<Match>, start: nat, first: nat, c: Cut) {
    c.last == first <= |all| && c.end == start + 524288 && (first < |all| ==> OverCap(all, start, first, first + 1))
  }

  lemma {:induction false} RawCutMaximal(src: seq<byte>, all: seq<Match>, start: nat, first: nat, c: Cut)
    requires Candidate(src, all, start, first, c.last, c.end) && Maximal(|src|, all, start, first, c)
    requires c.end == NextPos(|src|, all, c.last)
    ensures var r := RawCut(all, start, first, c);
      Maximal(|src|, all, start, first, r) || FullSpan(all, start, first, r)
  {
    if c.end - start > MAX_BLOCK_RAW_BYTES {
      RawStopFits(all, start, first, first, c.last);
    }
  }

  lemma {:induction false} LiteralCutMaximal(src: seq<byte>, all: seq<Match>, start: nat, first: nat, c: Cut)
    requires RawCapped(src, all, start, first, c.last, c.end)
    requires Maximal(|src|, all, start, first, c) || FullSpan(all, start, first, c)
    ensures Maximal(|src|, all, start, first, LiteralCut(all, start, first, c))
  {
    LiteralStopFits(all, start, first, first, c.last);
    LitsNonNegative(src, all, start, first, c.last, if c.last == first then start else c.end, c.last);
  }

  lemma {:induction false} RecordCutMaximal(all: seq<Match>, start: nat, first: nat, c: Cut, n: nat)
    requires first <= c.last <= |all| && Maximal(n, all, start, first, c)
    ensures Maximal(n, all, start, first, RecordCut(all, start, first, c))
  {
    RecordStopFits(all, start, first, first, c.last);
  }

  /** A block is as long as the caps allow. */
  lemma {:induction false} NextCutMaximal(src: seq<byte>, all: seq<Match>, start: nat, first: nat)
    requires Placed(src, all, start, first, |all|, |src|) && start < |src|
    ensures Maximal(|src|, all, start, first, NextCut(|src|, all, start, first))
  {
    var c0 := MatchCut(|src|, all, first);
    var c1 := RawCut(all, start, first, c0);
    var c2 := LiteralCut(all, start, first, c1);
    MatchCutKeeps(src, all, start, first);
    RawCutKeeps(src, all, start, first, c0);
    RawCutMaximal(src, all, start, first, c0);
    LiteralCutMaximal(src, all, start, first, c1);
    RecordCutMaximal(all, start, first, c2, |src|);
  }

  /** One block of the source: src[start..end] with matches first..last. */
  datatype Span = Span(start: nat, first: nat, last: nat, end: nat)

  /** The blocks of the source from start on. */
  ghost function Spans(src: seq<byte>, all: seq<Match>, start: nat, first: nat): seq<Span>
    requires Placed(src, all, start, first, |all|, |src|)
    decreases |src| - start
  {
    if start >= |src| then []
    else
      NextCutKeeps(src, all, start, first);
      var p := FirstSpan(src, all, start, first);
      [p] + Spans(src, all, p.end, p.last)
  }

  function FirstSpan(src: seq<byte>, all: seq<Match>, start: nat, first: nat): Span
    requires first <= |all|
  {
    var c := NextCut(|src|, all, start, first);
    Span(start, first, c.last, c.end)
  }

  /** The records of a block. */
  function SpanRecords(all: seq<Match>, p: Span): nat
    requires p.first <= p.last <= |all|
  {
    RecordsBefore(all, p.start, p.first, p.last) + TrailingRecords(p.end - EndAt(all, p.start, p.first, p.last))
  }

  /** The block has no match, or no more records than the decoder accepts. */
  predicate SpanFits(all: seq<Match>, p: Span) {
    p.first < p.last <= |all| ==> SpanRecords(all, p) <= MATCHES_PER_BLOCK
  }

  /** Every block keeps the caps, and they follow one another from start to the end of the source. */
  ghost predicate SpansFrom(src: seq<byte>, all: seq<Match>, start: nat, spans: seq<Span>)
    decreases |spans|
  {
    if spans == [] then start == |src|
    else
      var p := spans[0];
      && p.start == start && BlockFits(src, all, p.start, p.first, p.last, p.end)
      && SpansFrom(src, all, p.end, spans[1..])
  }

  /** The splitter partitions the source: its blocks keep every cap and leave nothing out. */
  lemma {:induction false} SpansPartition(src: seq<byte>, all: seq<Match>, start: nat, first: nat)
    requires Placed(src, all, start, first, |all|, |src|)
    ensures SpansFrom(src, all, start, Spans(src, all, start, first))
    decreases |src| - start
  {
    EndAtGrows(src, all, start, first, |all|, |src|, first);
    if start >= |src| {
    } else {
      NextCutKeeps(src, all, start, first);
      var c := NextCut(|src|, all, start, first);
      SpansPartition(src, all, c.end, c.last);
      assert Spans(src, all, start, first)[1..] == Spans(src, all, c.end, c.last);
    }
  }

  /** Each block keeps the caps and lies between start and the end of the source. */
  lemma {:induction false} SpanInside(src: seq<byte>, all: seq<Match>, start: nat, spans: seq<Span>, i: nat)
    requires SpansFrom(src, all, start, spans) && i < |spans|
    ensures var p := spans[i];
            start <= p.start < p.end <= |src| && BlockFits(src, all, p.start, p.first, p.last, p.end)
    decreases i
  {
    if i == 0 {
    } else {
      SpanInside(src, all, spans[0].end, spans[1..], i - 1);
    }
  }

  /** What fits whole is one block. */
  lemma OneSpan(src: seq<byte>, all: seq<Match>)
    requires Placed(src, all, 0, 0, |all|, |src|) && src != [] && RestFits(src, all, 0, 0)
    ensures Spans(src, all, 0, 0) == [Span(0, 0, |all|, |src|)]
  {
    NextCutKeeps(src, all, 0, 0);
    assert Spans(src, all, |src|, |all|) == [];
  }

  // ---------------------------------------------------------------- the splitter as the code runs it

  method MatchCap(n: nat, all: seq<Match>, first: nat) returns (last: nat, end: nat)
    requires first <= |all|
    ensures Cut(last, end) == MatchCut(n, all, first)
  {
    last := first + MATCHES_PER_BLOCK;
    if last > |all| {
      last := |all|;
    }
    if last < |all| {
      end := all[last].pos;
    } else {
      end := n;
    }
  }

  method RawCap(all: seq<Match>, start: nat, first: nat, last0: nat, end0: nat) returns (last: nat, end: nat)
    requires first <= last0 <= |all|
    ensures Cut(last, end) == RawCut(all, start, first, Cut(last0, end0))
  {
    last, end := last0, end0;
    if end - start > MAX_BLOCK_RAW_BYTES {
      var cut := first;
      while cut < last && all[cut].pos + all[cut].M - start <= MAX_BLOCK_RAW_BYTES
        invariant first <= cut <= last && RawStop(all, start, cut, last) == RawStop(all, start, first, last)
      {
        cut := cut + 1;
      }
      if cut > first {
        last := cut;
        end := all[cut - 1].pos + all[cut - 1].M;
      } else {
        last := first;
        end := start + MAX_BLOCK_RAW_BYTES;
      }
    }
  }

  method LiteralCap(all: seq<Match>, start: nat, first: nat, last0: nat, end0: nat) returns (last: nat, end: nat)
    requires first <= last0 <= |all|
    ensures Cut(last, end) == LiteralCut(all, start, first, Cut(last0, end0))
  {
    last, end := last0, end0;
    var lits := 0;
    var litPos: nat := start;
    var cut := first;
    while cut < last
      invariant first <= cut <= last
      invariant litPos == EndAt(all, start, first, cut) && lits == LitsBefore(all, start, first, cut)
      invariant lits <= MAX_BLOCK_LITERALS
      invariant LiteralStop(all, start, first, cut, last) == LiteralStop(all, start, first, first, last)
    {
      var m := all[cut];
      var run := m.pos - litPos;
      if lits + run > MAX_BLOCK_LITERALS { break; }
      lits := lits + run;
      litPos := m.pos + m.M;
      cut := cut + 1;
    }
    if cut < last {
      if cut > first {
        last := cut;
        end := all[cut - 1].pos + all[cut - 1].M;
      } else {
        last := first;
        end := start + MAX_BLOCK_LITERALS;
      }
    } else if end - litPos > MAX_BLOCK_LITERALS - lits {
      end := litPos + (MAX_BLOCK_LITERALS - lits);
    }
  }

  /** The splitting loop of one run. */
  method CountSplits(L0: int) returns (splits: nat)
    ensures splits == Splits(L0)
  {
    var L := L0;
    splits := 0;
    while L > MAX_L
      invariant splits + Splits(L) == Splits(L0)
      decreases L
    {
      splits := splits + 1;
      L := L - MAX_L;
    }
  }

  method RecordCap(all: seq<Match>, start: nat, first: nat, last0: nat, end0: nat) returns (last: nat, end: nat)
    requires first <= last0 <= |all|
    ensures Cut(last, end) == RecordCut(all, start, first, Cut(last0, end0))
  {
    last, end := last0, end0;
    var recs := 0;
    var litPos: nat := start;
    var cut := first;
    while cut < last
      invariant first <= cut <= last && litPos == EndAt(all, start, first, cut)
      invariant recs == RecordsBefore(all, start, first, cut)
      invariant RecordStop(all, start, first, cut, last) == RecordStop(all, start, first, first, last)
    {
      var m := all[cut];
      var splits := CountSplits(m.pos - litPos);
      var need := 1 + splits;
      if recs + need > RECORD_BUDGET { break; }
      recs := recs + need;
      litPos := m.pos + m.M;
      cut := cut + 1;
    }
    if cut < last {
      if cut > first {
        last := cut;
        end := all[cut - 1].pos + all[cut - 1].M;
      }
    }
  }

  /** One block: the four caps in turn. */
  method NextBlock(src: seq<byte>, all: seq<Match>, start: nat, first: nat) returns (last: nat, end: nat)
    requires first <= |all|
    ensures Cut(last, end) == NextCut(|src|, all, start, first)
  {
    last, end := MatchCap(|src|, all, first);
    last, end := RawCap(all, start, first, last, end);
    last, end := LiteralCap(all, start, first, last, end);
    last, end := RecordCap(all, start, first, last, end);
  }

  /** A valid parse is placed: its matches lie one after the other inside the source. */
  lemma {:induction false} ValidIsPlaced(src: seq<byte>, all: seq<Match>, k: nat)
    requires k <= |all| && ValidMatches(src, EndAt(all, 0, 0, k), all[k..], |src|)
    ensures forall j :: k <= j < |all| ==> MatchOk(src, all, 0, 0, j)
    ensures EndAt(all, 0, 0, k) <= EndAt(all, 0, 0, |all|) <= |src|
    decreases |all| - k
  {
    if k == |all| {
    } else {
      assert all[k..][1..] == all[k + 1..];
      ValidMatchesEnd(src, EndAt(all, 0, 0, k), all[k..], |src|);
      ValidIsPlaced(src, all, k + 1);
    }
  }

  // ---------------------------------------------------------------- the block as the encoder sees it

  /** The block's matches with L counted from the block's start. */
  function Rebased(all: seq<Match>, start: nat, first: nat, k: nat, last: nat): (ms: seq<Match>)
    requires first <= k <= last <= |all|
    ensures |ms| == last - k
    decreases last - k
  {
    if k == last then []
    else [all[k].(L := all[k].pos - EndAt(all, start, first, k))] + Rebased(all, start, first, k + 1, last)
  }

  lemma RebasedStep(all: seq<Match>, start: nat, first: nat, k: nat, last: nat, r: Match, done: seq<Match>)
    requires first <= k < last <= |all| && r == all[k].(L := all[k].pos - EndAt(all, start, first, k))
    ensures done + Rebased(all, start, first, k, last) == done + [r] + Rebased(all, start, first, k + 1, last)
  {
    SeqAssoc(done, [r], Rebased(all, start, first, k + 1, last));
  }

  method RebaseMatches(all: seq<Match>, start: nat, first: nat, last: nat) returns (rebased: seq<Match>)
    requires first <= last <= |all|
    ensures rebased == Rebased(all, start, first, first, last)
  {
    rebased := [];
    var litPos := start;
    for i := first to last
      invariant litPos == EndAt(all, start, first, i)
      invariant rebased + Rebased(all, start, first, i, last) == Rebased(all, start, first, first, last)
    {
      var m := all[i];
      var r := Match(m.pos, m.pos - litPos, m.M, m.D);
      RebasedStep(all, start, first, i, last, r, rebased);
      rebased := rebased + [r];
      litPos := m.pos + m.M;
    }
  }

  /** A placed block is a valid parse of its own range. */
  lemma {:induction false} RebasedIsValid(src: seq<byte>, all: seq<Match>, start: nat, first: nat, last: nat,
                                          end: nat, k: nat)
    requires Placed(src, all, start, first, last, end) && first <= k <= last
    ensures ValidMatches(src, EndAt(all, start, first, k), Rebased(all, start, first, k, last), end)
    decreases last - k
  {
    if k == last {
    } else {
      assert MatchOk(src, all, start, first, k);
      RebasedIsValid(src, all, start, first, last, end, k + 1);
    }
  }

  lemma SplitRunCount(L: nat, M: nat, D: nat)
    ensures |SplitRun(L, M, D)| == 1 + Splits(L)
  {
    if L <= MAX_L {
    } else {
      SplitRunCount(L - MAX_L, M, D);
    }
  }

  lemma {:induction false} RecordCounts(src: seq<byte>, all: seq<Match>, start: nat, first: nat, last: nat, end: nat,
                                        k: nat)
    requires Placed(src, all, start, first, last, end) && first <= k <= last
    ensures |RawRecords(EndAt(all, start, first, k), Rebased(all, start, first, k, last), end)|
            == RecordsBefore(all, start, first, last) - RecordsBefore(all, start, first, k)
               + TrailingRecords(end - EndAt(all, start, first, last))
    decreases last - k
  {
    if k < last {
      assert MatchOk(src, all, start, first, k);
      SplitRunCount(all[k].pos - EndAt(all, start, first, k), all[k].M, all[k].D);
      RecordCounts(src, all, start, first, last, end, k + 1);
    } else if end > EndAt(all, start, first, last) {
      SplitRunCount(end - EndAt(all, start, first, last), 0, 1);
    }
  }

  lemma {:induction false} LiteralCounts(src: seq<byte>, all: seq<Match>, start: nat, first: nat, last: nat, end: nat,
                                         k: nat)
    requires Placed(src, all, start, first, last, end) && first <= k <= last
    ensures var ms, at := Rebased(all, start, first, k, last), EndAt(all, start, first, k);
            && ValidMatches(src, at, ms, end)
            && |Uncovered(src, at, ms, end)|
               == BlockLits(all, start, first, last, end) - LitsBefore(all, start, first, k)
    decreases last - k
  {
    RebasedIsValid(src, all, start, first, last, end, k);
    if k == last {
    } else {
      assert MatchOk(src, all, start, first, k);
      LiteralCounts(src, all, start, first, last, end, k + 1);
    }
  }

  /** The records and literals the encoder makes of a block are exactly those the splitter counts. */
  lemma BlockCounts(src: seq<byte>, all: seq<Match>, start: nat, first: nat, last: nat, end: nat)
    requires Placed(src, all, start, first, last, end)
    ensures var ms := Rebased(all, start, first, first, last);
            && ValidMatches(src, start, ms, end)
            && |RawRecords(start, ms, end)| == RecordsBefore(all, start, first, last)
                                               + TrailingRecords(end - EndAt(all, start, first, last))
            && |Uncovered(src, start, ms, end)| == BlockLits(all, start, first, last, end)
  {
    RecordCounts(src, all, start, first, last, end, first);
    LiteralCounts(src, all, start, first, last, end, first);
  }

  /** Matches of at least 3 bytes take at most one record for three bytes of source. */
  lemma {:induction false} RecordsPerMatch(src: seq<byte>, all: seq<Match>, start: nat, first: nat, last: nat, end: nat,
                                           k: nat)
    requires Placed(src, all, start, first, last, end) && first <= k <= last
    requires forall m <- all :: m.M >= 3
    ensures 3 * RecordsBefore(all, start, first, k) <= EndAt(all, start, first, k) - start
    decreases k
  {
    if k == first {
    } else {
      RecordsPerMatch(src, all, start, first, last, end, k - 1);
      assert MatchOk(src, all, start, first, k - 1) && all[k - 1] in all;
      SplitsIsQuotient(all[k - 1].pos - EndAt(all, start, first, k - 1));
    }
  }

  /** A block's records in terms of its raw bytes, when no match is shorter than 3 bytes. */
  lemma RecordsPerByte(src: seq<byte>, all: seq<Match>, start: nat, first: nat, last: nat, end: nat)
    requires Placed(src, all, start, first, last, end) && forall m <- all :: m.M >= 3
    ensures 3 * (RecordsBefore(all, start, first, last) + TrailingRecords(end - EndAt(all, start, first, last)))
            <= end - start + 2
  {
    RecordsPerMatch(src, all, start, first, last, end, last);
    TrailingRecordsIsCeiling(end - EndAt(all, start, first, last));
  }

  /** The records of a block: at most 9998 plus those of its trailing run, so at most 10000 for up to 630 bytes. */
  lemma RecordBound(src: seq<byte>, all: seq<Match>, start: nat, first: nat, last: nat, end: nat)
    requires BlockFits(src, all, start, first, last, end)
    ensures var n := |BlockRecords(start, Rebased(all, start, first, first, last), end)|;
            var t := end - EndAt(all, start, first, last);
            && n == RecordsBefore(all, start, first, last) + TrailingRecords(t)
            && n <= RECORD_BUDGET + TrailingRecords(t)
            && (t <= 630 ==> n <= MATCHES_PER_BLOCK)
  {
    RecordCounts(src, all, start, first, last, end, first);
    TrailingRecordsIsCeiling(end - EndAt(all, start, first, last));
  }
}
