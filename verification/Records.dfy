/** L, M, D records: what the decoder does with them, and how the encoder rewrites a match list into them. */
module Records {
  import opened Bits
  import opened Lz
  import opened Lmd

  /** L literals, then M bytes copied from D back. On the wire D = 0 means the previous distance again. */
  datatype Rec = Rec(L: nat, M: nat, D: nat)

  /** A back-reference: M bytes at pos repeat those D before; L literals precede it. */
  datatype Match = Match(pos: nat, L: int, M: nat, D: nat)

  // ---------------------------------------------------------------- the decoder's side

  /**
   * LZ replay under the wire rules: D = 0 reuses the distance, M = 0 ignores it. lits are the literals not yet
   * used. None is an invalid record.
   */
  function Replay(out: seq<byte>, lits: seq<byte>, D: nat, recs: seq<Rec>): Option<seq<byte>>
    decreases |recs|
  {
    if recs == [] then Some(out)
    else
      var r := recs[0];
      var d := if r.D != 0 then r.D else D;
      if r.L > |lits| then None
      else
        var out1 := out + lits[..r.L];
        if r.M == 0 then Replay(out1, lits[r.L..], d, recs[1..])
        else if d == 0 || d > |out1| then None
        else Replay(LzCopy(out1, d, r.M), lits[r.L..], d, recs[1..])
  }

  function TotalL(recs: seq<Rec>): nat {
    if recs == [] then 0 else recs[0].L + TotalL(recs[1..])
  }

  function TotalM(recs: seq<Rec>): nat {
    if recs == [] then 0 else recs[0].M + TotalM(recs[1..])
  }

  lemma LzCopyPrefix(out: seq<byte>, d: nat, m: nat)
    requires 1 <= d <= |out|
    ensures out <= LzCopy(out, d, m)
  {
    LzCopyExtends(out, d, m);
  }

  /** A successful replay only appends, exactly the literals and match bytes of its records. */
  lemma {:induction false} ReplayLength(out: seq<byte>, lits: seq<byte>, D: nat, recs: seq<Rec>)
    ensures var r := Replay(out, lits, D, recs);
            r.Some? ==>
              && out <= r.value && |r.value| == |out| + TotalL(recs) + TotalM(recs)
              && TotalL(recs) <= |lits|
    decreases |recs|
  {
    if recs == [] || recs[0].L > |lits| {
    } else {
      var r := recs[0];
      var d := if r.D != 0 then r.D else D;
      var out1 := out + lits[..r.L];
      if r.M == 0 {
        ReplayLength(out1, lits[r.L..], d, recs[1..]);
      } else if 1 <= d <= |out1| {
        LzCopyPrefix(out1, d, r.M);
        ReplayLength(LzCopy(out1, d, r.M), lits[r.L..], d, recs[1..]);
      }
    }
  }

  ghost predicate RecInRange(r: Rec) {
    r.L <= MAX_L && r.M <= MAX_M && r.D <= MAX_D
  }

  lemma {:induction false} TotalMBound(recs: seq<Rec>)
    requires forall r <- recs :: r.M <= MAX_M
    ensures TotalM(recs) <= MAX_M * |recs|
  {
    if recs == [] {
    } else {
      TotalMBound(recs[1..]);
    }
  }

  /** The size pre-check never refuses a block that can be decoded. */
  lemma RawSizeBound(out: seq<byte>, lits: seq<byte>, recs: seq<Rec>)
    requires forall r <- recs :: r.M <= MAX_M
    ensures var r := Replay(out, lits, 0, recs);
            r.Some? ==> |r.value| - |out| <= |lits| + |recs| * MAX_M
  {
    ReplayLength(out, lits, 0, recs);
    TotalMBound(recs);
  }

  // ---------------------------------------------------------------- the encoder's side

  /** A run of more than 315 literals is split; every part carries the match's distance. */
  function SplitRun(L: nat, M: nat, D: nat): seq<Rec> {
    if L > MAX_L then [Rec(MAX_L, 0, D)] + SplitRun(L - MAX_L, M, D) else [Rec(L, M, D)]
  }

  /** The records of a match list covering src[litPos..srcEnd], distances written out. */
  function RawRecords(litPos: nat, ms: seq<Match>, srcEnd: nat): seq<Rec>
    decreases |ms|
  {
    if ms == [] then if srcEnd > litPos then SplitRun(srcEnd - litPos, 0, 1) else []
    else SplitRun(Max(ms[0].L, 0), ms[0].M, ms[0].D) + RawRecords(ms[0].pos + ms[0].M, ms[1..], srcEnd)
  }

  /** Repeated distances become 0. */
  function ReuseD(recs: seq<Rec>, lastD: nat): (r: seq<Rec>)
    ensures |r| == |recs|
  {
    if recs == [] then []
    else [recs[0].(D := if recs[0].D == lastD then 0 else recs[0].D)] + ReuseD(recs[1..], recs[0].D)
  }

  /** Each record keeps its lengths, and its distance unless that is the distance of the record before it. */
  lemma {:induction false} ReuseAt(recs: seq<Rec>, lastD: nat, i: nat)
    requires i < |recs|
    ensures var before := if i == 0 then lastD else recs[i - 1].D;
      ReuseD(recs, lastD)[i] == Rec(recs[i].L, recs[i].M, if recs[i].D == before then 0 else recs[i].D)
  {
    if i == 0 {
    } else {
      ReuseAt(recs[1..], recs[0].D, i - 1);
    }
  }

  /** A run is split into parts of 315 literals without a match, and the rest, which is not empty unless the run is. */
  lemma {:induction false} SplitRunAt(L: nat, M: nat, D: nat, i: nat)
    requires i < |SplitRun(L, M, D)|
    ensures var last := |SplitRun(L, M, D)| - 1;
      && 315 * last <= L <= 315 * last + 315 && (last > 0 ==> 315 * last < L)
      && SplitRun(L, M, D)[i] == if i < last then Rec(315, 0, D) else Rec(L - 315 * last, M, D)
  {
    if L <= MAX_L {
    } else {
      SplitRunAt(L - MAX_L, M, D, if i == 0 then 0 else i - 1);
    }
  }

  /** The literals after the last match become records without a match, of distance 1. */
  lemma {:induction false} TrailingRun(litPos: nat, srcEnd: nat, i: nat)
    requires litPos < srcEnd && i < |RawRecords(litPos, [], srcEnd)|
    ensures var r := RawRecords(litPos, [], srcEnd)[i]; r.M == 0 && r.D == 1 && 1 <= r.L <= 315
  {
    SplitRunAt(srcEnd - litPos, 0, 1, i);
  }

  /** L is the gap before the match, length and distance are in range, the bytes really repeat. */
  ghost predicate GoodMatch(src: seq<byte>, litPos: nat, m: Match) {
    && litPos <= m.pos && m.L == m.pos - litPos
    && 1 <= m.M <= MAX_M && m.D <= MAX_D && Repeats(src, m.pos, m.D, m.M)
  }

  /** A parse of src[litPos..srcEnd]: good matches in order, none overlapping, none past the end. */
  ghost predicate ValidMatches(src: seq<byte>, litPos: nat, ms: seq<Match>, srcEnd: nat)
    decreases |ms|
  {
    if ms == [] then litPos <= srcEnd <= |src|
    else GoodMatch(src, litPos, ms[0]) && ValidMatches(src, ms[0].pos + ms[0].M, ms[1..], srcEnd)
  }

  /** The bytes no match covers. */
  ghost function Uncovered(src: seq<byte>, litPos: nat, ms: seq<Match>, srcEnd: nat): seq<byte>
    requires ValidMatches(src, litPos, ms, srcEnd)
    decreases |ms|
  {
    if ms == [] then src[litPos..srcEnd]
    else src[litPos..ms[0].pos] + Uncovered(src, ms[0].pos + ms[0].M, ms[1..], srcEnd)
  }

  lemma {:induction false} ValidMatchesEnd(src: seq<byte>, litPos: nat, ms: seq<Match>, srcEnd: nat)
    requires ValidMatches(src, litPos, ms, srcEnd)
    ensures litPos <= srcEnd <= |src|
    decreases |ms|
  {
    if ms == [] {
    } else {
      ValidMatchesEnd(src, ms[0].pos + ms[0].M, ms[1..], srcEnd);
    }
  }

  lemma {:induction false} SplitRunShape(L: nat, M: nat, D: nat)
    requires 1 <= D <= MAX_D && M <= MAX_M
    ensures forall r <- SplitRun(L, M, D) :: RecInRange(r) && 1 <= r.D
    ensures |SplitRun(L, M, D)| == 1 + if L == 0 then 0 else (L - 1) / MAX_L
  {
    if L <= MAX_L {
    } else {
      SplitRunShape(L - MAX_L, M, D);
    }
  }

  lemma {:induction false} RawRecordsShape(src: seq<byte>, litPos: nat, ms: seq<Match>, srcEnd: nat)
    requires ValidMatches(src, litPos, ms, srcEnd)
    ensures forall r <- RawRecords(litPos, ms, srcEnd) :: RecInRange(r) && 1 <= r.D
    decreases |ms|
  {
    if ms == [] {
      if srcEnd > litPos { SplitRunShape(srcEnd - litPos, 0, 1); }
    } else {
      SplitRunShape(Max(ms[0].L, 0), ms[0].M, ms[0].D);
      RawRecordsShape(src, ms[0].pos + ms[0].M, ms[1..], srcEnd);
    }
  }

  /** A split run replays as one record. */
  lemma {:induction false} ReplaySplit(out: seq<byte>, run: seq<byte>, lits: seq<byte>, D: nat,
                                       M: nat, D0: nat, rest: seq<Rec>)
    requires 1 <= D0 && (M > 0 ==> D0 <= |out| + |run|)
    ensures Replay(out, run + lits, D, SplitRun(|run|, M, D0) + rest)
            == Replay(if M == 0 then out + run else LzCopy(out + run, D0, M), lits, D0, rest)
    decreases |run|
  {
    var recs := SplitRun(|run|, M, D0) + rest;
    if |run| > MAX_L {
      var a, b := run[..MAX_L], run[MAX_L..];
      assert recs[1..] == SplitRun(|b|, M, D0) + rest;
      assert run == a + b;
      assert (run + lits)[..MAX_L] == a && (run + lits)[MAX_L..] == b + lits && (out + a) + b == out + run;
      ReplaySplit(out + a, b, lits, D0, M, D0, rest);
    } else {
      assert recs[1..] == rest && (run + lits)[..|run|] == run && (run + lits)[|run|..] == lits;
    }
  }

  lemma SourceSlices(src: seq<byte>, a: nat, b: nat)
    requires a <= b <= |src|
    ensures src[..b] == src[..a] + src[a..b]
  {
  }

  /** One match in front of records that already rebuild the rest. */
  lemma MatchReplay(src: seq<byte>, litPos: nat, m: Match, later: seq<byte>, D: nat, rest: seq<Rec>, final: seq<byte>)
    requires GoodMatch(src, litPos, m) && Replay(src[..m.pos + m.M], later, m.D, rest) == Some(final)
    ensures Replay(src[..litPos], src[litPos..m.pos] + later, D, SplitRun(m.L, m.M, m.D) + rest) == Some(final)
  {
    SourceSlices(src, litPos, m.pos);
    CopyRebuilds(src, m.pos, m.D, m.M);
    ReplaySplit(src[..litPos], src[litPos..m.pos], later, D, m.M, m.D, rest);
  }

  /** The trailing literals. */
  lemma TailReplay(src: seq<byte>, litPos: nat, srcEnd: nat, pad: seq<byte>, D: nat)
    requires litPos <= srcEnd <= |src|
    ensures Replay(src[..litPos], src[litPos..srcEnd] + pad, D, RawRecords(litPos, [], srcEnd)) == Some(src[..srcEnd])
  {
    SourceSlices(src, litPos, srcEnd);
    if srcEnd > litPos {
      RunReplay(src[..litPos], src[litPos..srcEnd], pad, D);
    }
  }

  /** A run of literals without a match. */
  lemma RunReplay(out: seq<byte>, run: seq<byte>, lits: seq<byte>, D: nat)
    ensures Replay(out, run + lits, D, SplitRun(|run|, 0, 1)) == Some(out + run)
  {
    var recs := SplitRun(|run|, 0, 1);
    assert recs + [] == recs;
    ReplaySplit(out, run, lits, D, 0, 1, []);
  }

  /** The written-out records rebuild the source when the literals are the uncovered bytes. */
  lemma {:induction false} RawRecordsReplay(src: seq<byte>, litPos: nat, ms: seq<Match>, srcEnd: nat,
                                            pad: seq<byte>, D: nat)
    requires ValidMatches(src, litPos, ms, srcEnd)
    ensures litPos <= srcEnd <= |src|
    ensures Replay(src[..litPos], Uncovered(src, litPos, ms, srcEnd) + pad, D, RawRecords(litPos, ms, srcEnd))
            == Some(src[..srcEnd])
    decreases |ms|
  {
    ValidMatchesEnd(src, litPos, ms, srcEnd);
    if ms == [] {
      TailReplay(src, litPos, srcEnd, pad, D);
    } else {
      var m := ms[0];
      var next := m.pos + m.M;
      var later := Uncovered(src, next, ms[1..], srcEnd);
      SeqAssoc(src[litPos..m.pos], later, pad);
      RawRecordsReplay(src, next, ms[1..], srcEnd, pad, m.D);
      MatchReplay(src, litPos, m, later + pad, D, RawRecords(next, ms[1..], srcEnd), src[..srcEnd]);
    }
  }

  /** Writing 0 for a repeated distance changes nothing for a decoder that remembers the distance. */
  lemma {:induction false} ReuseReplay(out: seq<byte>, lits: seq<byte>, D: nat, recs: seq<Rec>)
    requires forall r <- recs :: 1 <= r.D
    ensures Replay(out, lits, D, ReuseD(recs, D)) == Replay(out, lits, D, recs)
    decreases |recs|
  {
    if recs == [] || recs[0].L > |lits| {
    } else {
      var r := recs[0];
      assert ReuseD(recs, D)[1..] == ReuseD(recs[1..], r.D);
      var out1 := out + lits[..r.L];
      if r.M == 0 {
        ReuseReplay(out1, lits[r.L..], r.D, recs[1..]);
      } else if r.D <= |out1| {
        ReuseReplay(LzCopy(out1, r.D, r.M), lits[r.L..], r.D, recs[1..]);
      }
    }
  }

  lemma {:induction false} ReuseInRange(recs: seq<Rec>, D: nat)
    requires forall r <- recs :: RecInRange(r)
    ensures forall r <- ReuseD(recs, D) :: RecInRange(r)
  {
    if recs == [] {
    } else {
      assert RecInRange(recs[0]);
      ReuseInRange(recs[1..], recs[0].D);
    }
  }

  /** The records encodeBlock writes for src[start..srcEnd]. */
  function BlockRecords(start: nat, ms: seq<Match>, srcEnd: nat): seq<Rec> {
    ReuseD(RawRecords(start, ms, srcEnd), 0)
  }

  /**
   * Record rewriting preserves meaning: for every valid parse, the split, reused and padded form replays to the
   * source under the decoder's rules, its lengths add up to the block's raw size, and every field is in range.
   */
  lemma BlockRecordsReplay(src: seq<byte>, start: nat, ms: seq<Match>, srcEnd: nat, pad: seq<byte>)
    requires ValidMatches(src, start, ms, srcEnd)
    ensures start <= srcEnd <= |src|
    ensures var recs, lits := BlockRecords(start, ms, srcEnd), Uncovered(src, start, ms, srcEnd) + pad;
            && Replay(src[..start], lits, 0, recs) == Some(src[..srcEnd])
            && TotalL(recs) + TotalM(recs) == srcEnd - start
            && (forall r <- recs :: RecInRange(r))
  {
    var raw := RawRecords(start, ms, srcEnd);
    var lits := Uncovered(src, start, ms, srcEnd) + pad;
    RawRecordsShape(src, start, ms, srcEnd);
    RawRecordsReplay(src, start, ms, srcEnd, pad, 0);
    ReuseReplay(src[..start], lits, 0, raw);
    ReuseInRange(raw, 0);
    ReplayLength(src[..start], lits, 0, ReuseD(raw, 0));
  }
}
