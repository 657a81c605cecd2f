/** Normalising a histogram to a frequency table whose entries sum to the number of states. */
module FseNormalize {
  import opened Bits
  import opened FseTables

  /** How many symbols occur. */
  function Distinct(counts: seq<nat>): nat {
    if counts == [] then 0
    else Distinct(counts[..|counts| - 1]) + (if counts[|counts| - 1] > 0 then 1 else 0)
  }

  /** The table gives a symbol a state exactly when the histogram counted it. */
  ghost predicate SameSupport(freqs: seq<nat>, counts: seq<nat>) {
    |freqs| == |counts| && forall i :: 0 <= i < |counts| ==> (freqs[i] > 0 <==> counts[i] > 0)
  }

  lemma {:induction false} SupportSum(freqs: seq<nat>, counts: seq<nat>)
    requires SameSupport(freqs, counts)
    ensures Distinct(counts) <= Sum(freqs)
    ensures (forall i :: 0 <= i < |freqs| ==> freqs[i] <= 1) ==> Sum(freqs) == Distinct(counts)
  {
    if freqs == [] {
    } else {
      var n := |freqs| - 1;
      assert forall i :: 0 <= i < n ==> freqs[..n][i] == freqs[i] && counts[..n][i] == counts[i];
      SupportSum(freqs[..n], counts[..n]);
    }
  }

  lemma {:induction false} SumUpdate(s: seq<nat>, i: nat, v: nat)
    requires i < |s|
    ensures Sum(s[i := v]) == Sum(s) - s[i] + v
  {
    var n := |s| - 1;
    if i < n {
      assert s[i := v][..n] == s[..n][i := v];
      SumUpdate(s[..n], i, v);
    } else {
      assert s[i := v][..n] == s[..n];
    }
  }

  lemma {:induction false} EntryAtMostSum(s: seq<nat>, i: nat)
    requires i < |s|
    ensures s[i] <= Sum(s)
  {
    FreqAtMostSum(s, i);
  }

  lemma {:induction false} SumZero(n: nat)
    ensures Sum(seq(n, _ => 0)) == 0
  {
    if n == 0 {
    } else {
      SumZero(n - 1);
      assert seq(n, _ => 0)[..n - 1] == seq(n - 1, _ => 0);
    }
  }

  lemma ShrLeq(x: nat, n: nat)
    ensures Shr(x, n) <= x
  {
    if n == 0 {
    } else {
      ShrLeq(x / 2, n - 1);
    }
  }

  lemma {:induction false} ShrMono(x: nat, y: nat, n: nat)
    requires x <= y
    ensures Shr(x, n) <= Shr(y, n)
  {
    if n == 0 {
    } else {
      ShrMono(x / 2, y / 2, n - 1);
    }
  }

  const STEP_ONE: nat := 0x8000_0000

  /** The 32-bit product never wraps and the rounded share of a symbol never exceeds the number of states. */
  lemma ShareFits(c: nat, total: nat, p: nat)
    requires c <= total && 0 < total < STEP_ONE && p <= 30
    ensures STEP_ONE / total >= 0 && 0 <= c * (STEP_ONE / total) <= STEP_ONE
    ensures (Shr(c * (STEP_ONE / total), 30 - p) + 1) / 2 <= Pow2(p)
  {
    var step := STEP_ONE / total;
    DivMod(STEP_ONE, total);
    DivNonNegative(STEP_ONE, total);
    MulLeq(c, total, step + 1);
    MulDistributes(step, 1, c);
    MulDistributes(step, 1, total);
    assert 0 <= c * step <= total * step by { MulLeqRight(c, total, step); }
    assert step * total == total * step;
    ShrMono(c * step, STEP_ONE, 30 - p);
    Pow2Big();
    Pow2Add(p + 1, 30 - p);
    ShrLowUnique(STEP_ONE, 30 - p, Pow2(p + 1), 0);
  }

  lemma MulLeqRight(a: nat, b: nat, d: nat)
    requires a <= b
    ensures 0 <= a * d <= b * d
  {
    if d > 0 { MulLeq(a, b, d); MulLeq(0, a, d); }
  }

  /** (1 << 31) / total. */
  function Step(total: nat): nat
    requires total > 0
  {
    DivNonNegative(STEP_ONE, total);
    STEP_ONE / total
  }

  /** Shifting down, adding one and halving rounds to the nearest multiple of 2 * 2^n. */
  lemma Halved(w: nat, n: nat)
    ensures var f := (Shr(w, n) + 1) / 2; (2 * f - 1) * Pow2(n) <= w < (2 * f + 1) * Pow2(n)
  {
    var s: int := Shr(w, n);
    var f: int := (s + 1) / 2;
    ShrLow(w, n);
    MulLeq(2 * f - 1, s, Pow2(n));
    MulUpper(s, 2 * f + 1, Pow2(n));
  }

  // ---------------------------------------------------------------- the table a histogram gives

  /** A counted symbol's share of 2^p states: c * 2^31 / total, rounded, at least one. */
  function ShareOf(c: nat, total: nat, p: nat): (f: nat)
    requires c == 0 || (0 < total && p <= 30)
    ensures f > 0 <==> c > 0
  {
    if c == 0 then 0
    else
      MulLeqRight(0, c, Step(total));
      Max((Shr(c * Step(total), 30 - p) + 1) / 2, 1)
  }

  /** f is c / total of the states in units of 2^-31, rounded to the nearest, and at least one. */
  predicate Rounded(c: nat, total: nat, p: nat, f: nat)
    requires 0 < total && p <= 30
  {
    if c == 0 then f == 0
    else
      && f >= 1 && c * Step(total) < (2 * f + 1) * Pow2(30 - p)
      && (f > 1 ==> (2 * f - 1) * Pow2(30 - p) <= c * Step(total))
  }

  lemma ShareRounds(c: nat, total: nat, p: nat)
    requires 0 < total && p <= 30
    ensures Rounded(c, total, p, ShareOf(c, total, p))
  {
    if c > 0 {
      MulLeqRight(0, c, Step(total));
      Halved(c * Step(total), 30 - p);
      MulLeq(1, 3, Pow2(30 - p));
    }
  }

  /** Only one number is the rounded share. */
  lemma RoundedUnique(c: nat, total: nat, p: nat, f: nat, g: nat)
    requires 0 < total && p <= 30 && Rounded(c, total, p, f) && Rounded(c, total, p, g)
    ensures f == g
  {
    if f < g {
      MulLeq(2 * f + 1, 2 * g - 1, Pow2(30 - p));
    } else if g < f {
      MulLeq(2 * g + 1, 2 * f - 1, Pow2(30 - p));
    }
  }

  function Shares(counts: seq<nat>, p: nat): (s: seq<nat>)
    requires p <= 30
    ensures |s| == |counts|
  {
    seq(|counts|, i requires 0 <= i < |counts| => if Sum(counts) == 0 then 0 else ShareOf(counts[i], Sum(counts), p))
  }

  /** The first symbol with the largest share. */
  ghost predicate IsTop(shares: seq<nat>, top: nat) {
    && top < |shares| && shares[top] > 0
    && (forall i :: 0 <= i < |shares| ==> shares[i] <= shares[top])
    && forall i :: 0 <= i < top ==> shares[i] < shares[top]
  }

  /** What a symbol can give in a pass with this shift. */
  function Give(f: nat, shift: nat): (n: nat)
    ensures n <= f && (f > 0 ==> n < f)
  {
    if f > 1 then
      ShrLeq(f - 1, shift);
      Shr(f - 1, shift)
    else 0
  }

  /** A table and the states it still has to give back. */
  datatype Debt = Debt(freqs: seq<nat>, owed: nat)

  /** One pass: the symbols give in order until nothing is owed. */
  function AfterPass(d: Debt, shift: nat): (r: Debt)
    ensures r.owed <= d.owed && |r.freqs| == |d.freqs|
    decreases |d.freqs|
  {
    if d.freqs == [] then d
    else
      var f := d.freqs[|d.freqs| - 1];
      var r := AfterPass(Debt(d.freqs[..|d.freqs| - 1], d.owed), shift);
      var n := Min(Give(f, shift), r.owed);
      Debt(r.freqs + [f - n], r.owed - n)
  }

  /** One round: passes with shifts shift, ..., 1, 0. */
  function Round(d: Debt, shift: int): (r: Debt)
    requires shift >= -1
    ensures r.owed <= d.owed
    decreases shift + 1
  {
    if shift < 0 then d else Round(AfterPass(d, shift), shift - 1)
  }

  /** Rounds until nothing is owed or nobody can give. */
  function Repaid(d: Debt): Debt
    decreases d.owed
  {
    var r := Round(d, 3);
    if d.owed == 0 || r.owed == d.owed then d else Repaid(r)
  }

  /**
   * freqs is the shares less what is owed: at the first largest share alone if it owes below a quarter of itself,
   * and by rounds of giving otherwise.
   */
  ghost predicate Corrected(shares: seq<nat>, owed: int, top: nat, freqs: seq<nat>)
    requires top < |shares|
  {
    if owed < shares[top] / 4 then freqs == shares[top := shares[top] - owed]
    else IsRepaid(Debt(shares, owed), freqs)
  }

  /** freqs is what remains of the table when the debt has been repaid as far as possible. */
  ghost predicate IsRepaid(d: Debt, freqs: seq<nat>) {
    forall o: Debt :: o == d ==> freqs == Repaid(o).freqs
  }

  lemma {:induction false} TopUnique(shares: seq<nat>, a: nat, b: nat)
    requires IsTop(shares, a) && IsTop(shares, b)
    ensures a == b
  {
  }

  /** freqs is the frequency table of a histogram. */
  ghost predicate IsNormalized(counts: seq<nat>, p: nat, freqs: seq<nat>) {
    && p <= 15 && Sum(counts) > 0
    && var shares := Shares(counts, p);
       exists top: nat :: (IsTop(shares, top) && Corrected(shares, Sum(shares) - Pow2(p), top, freqs))
  }

  // ---------------------------------------------------------------- what that table is like

  /** r is d after one pass. */
  ghost predicate IsPass(d: Debt, shift: nat, r: Debt) {
    forall o: Debt :: o == d ==> r == AfterPass(o, shift)
  }

  /** The symbols before i do not notice the later ones. */
  lemma {:induction false} PassPrefix(freqs: seq<nat>, owed: nat, shift: nat, i: nat, r: Debt) returns (q: Debt)
    requires i <= |freqs| && IsPass(Debt(freqs, owed), shift, r)
    ensures |r.freqs| == |freqs| && IsPass(Debt(freqs[..i], owed), shift, q) && q.freqs == r.freqs[..i]
    decreases |freqs|
  {
    var n := |freqs| - 1;
    assert r == AfterPass(Debt(freqs, owed), shift);
    if i == n + 1 {
      assert freqs[..i] == freqs;
      q := r;
    } else {
      q := PassPrefix(freqs[..n], owed, shift, i, AfterPass(Debt(freqs[..n], owed), shift));
      assert freqs[..n][..i] == freqs[..i];
    }
  }

  /** after is what may become of a debt before: no entry grows or vanishes, and what is paid comes off the table. */
  ghost predicate Pays(before: Debt, after: Debt) {
    && |after.freqs| == |before.freqs|
    && (forall i :: 0 <= i < |before.freqs| ==>
      after.freqs[i] <= before.freqs[i] && (after.freqs[i] > 0 <==> before.freqs[i] > 0))
    && Sum(after.freqs) - after.owed == Sum(before.freqs) - before.owed
  }

  lemma {:induction false} PaysMore(before: Debt, after: Debt, f: nat, n: nat)
    requires Pays(before, after) && n <= after.owed && n <= f && (f > 0 ==> n < f)
    ensures Pays(Debt(before.freqs + [f], before.owed), Debt(after.freqs + [f - n], after.owed - n))
  {
    assert (before.freqs + [f])[..|before.freqs|] == before.freqs;
    assert (after.freqs + [f - n])[..|after.freqs|] == after.freqs;
  }

  /** A pass takes from the table what it takes off the debt. */
  lemma {:induction false} PassPays(d: Debt, shift: nat)
    ensures Pays(d, AfterPass(d, shift))
    decreases |d.freqs|
  {
    if d.freqs == [] {
    } else {
      var f := d.freqs[|d.freqs| - 1];
      var front := Debt(d.freqs[..|d.freqs| - 1], d.owed);
      PassPays(front, shift);
      var r := AfterPass(front, shift);
      PaysMore(front, r, f, Min(Give(f, shift), r.owed));
      assert d.freqs == front.freqs + [f];
    }
  }

  lemma {:induction false} RoundPays(d: Debt, shift: int)
    requires shift >= -1
    ensures Pays(d, Round(d, shift))
    decreases shift + 1
  {
    if shift < 0 {
    } else {
      PassPays(d, shift);
      RoundPays(AfterPass(d, shift), shift - 1);
    }
  }

  /** A pass that takes nothing changes nothing. */
  lemma {:induction false} PassKeeps(d: Debt, shift: nat)
    requires AfterPass(d, shift).owed == d.owed
    ensures AfterPass(d, shift) == d
    decreases |d.freqs|
  {
    if d.freqs == [] {
    } else {
      PassKeeps(Debt(d.freqs[..|d.freqs| - 1], d.owed), shift);
      assert d.freqs == d.freqs[..|d.freqs| - 1] + [d.freqs[|d.freqs| - 1]];
    }
  }

  /** With shift 0 it then finds nobody who can give. */
  lemma {:induction false} NobodyGives(d: Debt, i: nat)
    requires AfterPass(d, 0).owed == d.owed > 0 && i < |d.freqs|
    ensures d.freqs[i] <= 1
    decreases |d.freqs|
  {
    var front := Debt(d.freqs[..|d.freqs| - 1], d.owed);
    if i == |d.freqs| - 1 {
      assert AfterPass(front, 0).owed == d.owed;
      assert Give(d.freqs[i], 0) == 0;
    } else {
      NobodyGives(front, i);
    }
  }

  lemma {:induction false} RoundKeeps(d: Debt, shift: int)
    requires shift >= -1 && Round(d, shift).owed == d.owed
    ensures Round(d, shift) == d
    ensures d.owed > 0 && shift >= 0 ==> forall i :: 0 <= i < |d.freqs| ==> d.freqs[i] <= 1
    decreases shift + 1
  {
    if shift < 0 {
    } else {
      PassKeeps(d, shift);
      RoundKeeps(d, shift - 1);
      if shift == 0 && d.owed > 0 {
        forall i | 0 <= i < |d.freqs|
          ensures d.freqs[i] <= 1
        {
          NobodyGives(d, i);
        }
      }
    }
  }

  /** A round is four passes: an eighth, a quarter, a half and then all of what each entry has above one. */
  lemma {:induction false} RoundIsFourPasses(d: Debt)
    requires d.owed > 0
    ensures var r := AfterPass(AfterPass(AfterPass(AfterPass(d, 3), 2), 1), 0);
      Repaid(d) == if r.owed < d.owed then Repaid(r) else d
  {
    assert Round(d, 3) == AfterPass(AfterPass(AfterPass(AfterPass(d, 3), 2), 1), 0) by {
      assert forall e: Debt :: Round(e, -1) == e;
      assert forall e: Debt :: Round(e, 0) == Round(AfterPass(e, 0), -1);
      assert forall e: Debt :: Round(e, 1) == Round(AfterPass(e, 1), 0);
      assert forall e: Debt :: Round(e, 2) == Round(AfterPass(e, 2), 1);
    }
  }

  /** What a pass does to one symbol: it pays a share of what it has above one, at most what the ones before it left. */
  lemma {:induction false} PassShape(freqs: seq<nat>, owed: nat, shift: nat, i: nat, r: Debt)
    requires i < |freqs| && IsPass(Debt(freqs, owed), shift, r)
    ensures |r.freqs| == |freqs| && 0 <= Sum(freqs[..i]) - Sum(r.freqs[..i]) <= owed
    ensures r.freqs[i] == freqs[i] - Min(owed - (Sum(freqs[..i]) - Sum(r.freqs[..i])),
                                         if freqs[i] > 1 then (freqs[i] - 1) / Pow2(shift) else 0)
  {
    var upTo := PassPrefix(freqs, owed, shift, i + 1, r);
    var before := PassPrefix(freqs, owed, shift, i, r);
    assert upTo.freqs[i] == r.freqs[i] && freqs[..i + 1][..i] == freqs[..i];
    LastPays(freqs[..i + 1], owed, shift, before, upTo);
  }

  lemma {:induction false} LastPays(freqs: seq<nat>, owed: nat, shift: nat, q: Debt, r: Debt)
    requires freqs != [] && IsPass(Debt(freqs[..|freqs| - 1], owed), shift, q) && IsPass(Debt(freqs, owed), shift, r)
    ensures |r.freqs| == |freqs| && 0 <= Sum(freqs[..|freqs| - 1]) - Sum(q.freqs) == owed - q.owed <= owed
    ensures var f := freqs[|freqs| - 1];
      r.freqs[|freqs| - 1] == f - Min(q.owed, if f > 1 then (f - 1) / Pow2(shift) else 0)
  {
    var f := freqs[|freqs| - 1];
    assert r == AfterPass(Debt(freqs, owed), shift) && q == AfterPass(Debt(freqs[..|freqs| - 1], owed), shift);
    PassPays(Debt(freqs[..|freqs| - 1], owed), shift);
    if f > 1 { ShrLowIsDivMod(f - 1, shift); }
  }

  lemma {:induction false} TopCorrected(shares: seq<nat>, n: nat, top: nat, freqs: seq<nat>)
    requires IsTop(shares, top) && shares[top] + n > Sum(shares)
    requires freqs == shares[top := shares[top] + n - Sum(shares)]
    ensures SameSupport(freqs, shares) && Sum(freqs) == n >= Distinct(shares)
    ensures forall i :: 0 <= i < |freqs| ==> freqs[i] <= n
  {
    SumUpdate(shares, top, shares[top] + n - Sum(shares));
    SupportSum(freqs, shares);
    forall i | 0 <= i < |freqs|
      ensures freqs[i] <= n
    {
      EntryAtMostSum(freqs, i);
    }
  }

  lemma {:induction false} SameDistinct(freqs: seq<nat>, counts: seq<nat>)
    requires SameSupport(freqs, counts)
    ensures Distinct(freqs) == Distinct(counts)
  {
    if freqs == [] {
    } else {
      var n := |freqs| - 1;
      assert forall i :: 0 <= i < n ==> freqs[..n][i] == freqs[i] && counts[..n][i] == counts[i];
      SameDistinct(freqs[..n], counts[..n]);
    }
  }

  /** One round: either it takes nothing and nobody can give, or the rest is repaid after it. */
  lemma {:induction false} OneRound(d: Debt, freqs: seq<nat>) returns (r: Debt)
    requires IsRepaid(d, freqs)
    ensures Pays(d, r) && r.owed <= d.owed
    ensures if d.owed == 0 || r.owed == d.owed
            then freqs == d.freqs && (d.owed > 0 ==> forall i :: 0 <= i < |freqs| ==> freqs[i] <= 1)
            else IsRepaid(r, freqs)
  {
    r := Round(d, 3);
    RoundPays(d, 3);
    assert freqs == Repaid(d).freqs;
    if d.owed > 0 && r.owed == d.owed { RoundKeeps(d, 3); }
  }

  /** Nobody gains states or loses all, and the debt is repaid unless every symbol is left with one. */
  lemma {:induction false} RepaidFits(d: Debt, freqs: seq<nat>)
    requires IsRepaid(d, freqs)
    ensures SameSupport(freqs, d.freqs) && Sum(freqs) == Max(Sum(d.freqs) - d.owed, Distinct(d.freqs))
    ensures forall i :: 0 <= i < |freqs| ==> freqs[i] <= d.freqs[i]
    decreases d.owed
  {
    var r := OneRound(d, freqs);
    if d.owed == 0 || r.owed == d.owed {
      SupportSum(freqs, d.freqs);
    } else {
      RepaidFits(r, freqs);
      SameDistinct(r.freqs, d.freqs);
    }
  }

  lemma {:induction false} RepaidCorrected(shares: seq<nat>, owed: nat, n: nat, freqs: seq<nat>)
    requires IsRepaid(Debt(shares, owed), freqs) && n + owed == Sum(shares)
    requires forall i :: 0 <= i < |shares| ==> shares[i] <= n
    ensures SameSupport(freqs, shares) && Sum(freqs) == Max(n, Distinct(shares))
    ensures forall i :: 0 <= i < |freqs| ==> freqs[i] <= n
  {
    RepaidFits(Debt(shares, owed), freqs);
  }

  /** A correction gives states to the same symbols, and n in all unless more symbols occur. */
  lemma {:induction false} CorrectedFits(shares: seq<nat>, owed: int, n: nat, top: nat, freqs: seq<nat>)
    requires IsTop(shares, top) && Corrected(shares, owed, top, freqs) && owed == Sum(shares) - n
    requires forall i :: 0 <= i < |shares| ==> shares[i] <= n
    ensures SameSupport(freqs, shares) && Sum(freqs) == Max(n, Distinct(shares))
    ensures forall i :: 0 <= i < |freqs| ==> freqs[i] <= n
  {
    if owed < shares[top] / 4 {
      TopCorrected(shares, n, top, freqs);
    } else {
      RepaidCorrected(shares, owed, n, freqs);
    }
  }

  /** A histogram's table has states for exactly the symbols that occur, and 2^p in all unless more symbols occur. */
  lemma {:induction false} NormalizedFits(counts: seq<nat>, p: nat, freqs: seq<nat>)
    requires IsNormalized(counts, p, freqs) && Sum(counts) < STEP_ONE
    ensures SameSupport(freqs, counts) && Sum(freqs) == Max(Pow2(p), Distinct(counts))
    ensures forall i :: 0 <= i < |freqs| ==> freqs[i] <= Pow2(p)
  {
    SharesFit(counts, p);
    var shares := Shares(counts, p);
    var owed := Sum(shares) - Pow2(p);
    var top: nat :| IsTop(shares, top) && Corrected(shares, owed, top, freqs);
    CorrectedFits(shares, owed, Pow2(p), top, freqs);
    SameDistinct(shares, counts);
  }

  lemma {:induction false} SharesFit(counts: seq<nat>, p: nat)
    requires p <= 15 && 0 < Sum(counts) < STEP_ONE
    ensures SameSupport(Shares(counts, p), counts)
    ensures forall i :: 0 <= i < |counts| ==> Shares(counts, p)[i] <= Pow2(p)
  {
    forall i | 0 <= i < |counts|
      ensures Shares(counts, p)[i] <= Pow2(p)
    {
      EntryAtMostSum(counts, i);
      ShareFits(counts[i], Sum(counts), p);
      Pow2Mono(0, p);
    }
  }

  lemma {:induction false} RoundedAreShares(counts: seq<nat>, p: nat, shares: seq<nat>)
    requires p <= 15 && Sum(counts) > 0 && |shares| == |counts|
    requires forall i :: 0 <= i < |counts| ==> Rounded(counts[i], Sum(counts), p, shares[i])
    ensures shares == Shares(counts, p)
  {
    forall i | 0 <= i < |counts|
      ensures shares[i] == ShareOf(counts[i], Sum(counts), p)
    {
      ShareRounds(counts[i], Sum(counts), p);
      RoundedUnique(counts[i], Sum(counts), p, shares[i], ShareOf(counts[i], Sum(counts), p));
    }
  }

  /**
   * A histogram's table against its rounded shares: while less is owed than a quarter of the largest, only the first
   * symbol with the largest share differs, by all that is owed or left; otherwise nobody ends above its share, and
   * the table is what the rounds of giving leave.
   */
  lemma {:induction false} NormalizedShape(counts: seq<nat>, p: nat, freqs: seq<nat>, shares: seq<nat>, top: nat)
    requires IsNormalized(counts, p, freqs) && |shares| == |counts|
    requires forall i :: 0 <= i < |counts| ==> Rounded(counts[i], Sum(counts), p, shares[i])
    requires top < |shares| && counts[top] > 0 && forall i :: 0 <= i < |shares| ==> shares[i] <= shares[top]
    requires forall i :: 0 <= i < top ==> shares[i] < shares[top]
    ensures if Sum(shares) - Pow2(p) < shares[top] / 4
            then freqs == shares[top := shares[top] + Pow2(p) - Sum(shares)]
            else IsRepaid(Debt(shares, Sum(shares) - Pow2(p)), freqs)
                 && |freqs| == |shares| && forall i :: 0 <= i < |freqs| ==> freqs[i] <= shares[i]
  {
    RoundedAreShares(counts, p, shares);
    var t: nat :| IsTop(shares, t) && Corrected(shares, Sum(shares) - Pow2(p), t, freqs);
    TopUnique(shares, t, top);
    CorrectedShape(shares, Sum(shares) - Pow2(p), top, freqs);
  }

  lemma {:induction false} CorrectedShape(shares: seq<nat>, owed: int, top: nat, freqs: seq<nat>)
    requires top < |shares| && Corrected(shares, owed, top, freqs)
    ensures if owed < shares[top] / 4 then freqs == shares[top := shares[top] - owed]
            else IsRepaid(Debt(shares, owed), freqs)
                 && |freqs| == |shares| && forall i :: 0 <= i < |freqs| ==> freqs[i] <= shares[i]
  {
    if !(owed < shares[top] / 4) {
      RepaidFits(Debt(shares, owed), freqs);
    }
  }

  // ---------------------------------------------------------------- the code's passes

  /** One symbol's share; uint32 arithmetic, which never wraps. */
  method Share(c: nat, sCount: nat, shift: nat, highprecStep: nat, ghost p: nat) returns (f: nat)
    requires 0 < c <= sCount < STEP_ONE && p <= 15 && shift == 30 - p && highprecStep == Step(sCount)
    ensures f == ShareOf(c, sCount, p) && 1 <= f <= Pow2(p) && 0 <= c * highprecStep < 0x1_0000_0000
    ensures Rounded(c, sCount, p, f)
  {
    ShareFits(c, sCount, p);
    SmallMod(c * highprecStep, 0x1_0000_0000);
    ShareRounds(c, sCount, p);
    f := (Shr(c * highprecStep % 0x1_0000_0000, shift) + 1) / 2;
    if f == 0 { f := 1; }
  }

  /** The shares of the symbols before i. */
  ghost predicate SharedTo(counts: seq<nat>, p: nat, freqs: seq<nat>, i: nat)
    requires p <= 15 && 0 < Sum(counts)
  {
    && i <= |counts| == |freqs|
    && (forall j :: 0 <= j < i ==> freqs[j] == ShareOf(counts[j], Sum(counts), p))
    && forall j :: i <= j < |freqs| ==> freqs[j] == 0
  }

  /** Stores a symbol's share and takes it off what remains. */
  method GiveStates(counts: seq<nat>, freqs: array<nat>, i: nat, f: nat, remaining0: int, ghost p: nat)
    returns (remaining: int)
    requires p <= 15 && i < |counts| && 0 < Sum(counts) && SharedTo(counts, p, freqs[..], i)
    requires f == ShareOf(counts[i], Sum(counts), p)
    modifies freqs
    ensures SharedTo(counts, p, freqs[..], i + 1) && freqs[i] == f
    ensures Sum(freqs[..]) + remaining == old(Sum(freqs[..])) + remaining0
    ensures freqs[..i] == old(freqs[..i])
  {
    ghost var was := freqs[..];
    SumUpdate(was, i, f);
    freqs[i] := f;
    assert freqs[..] == was[i := f];
    remaining := remaining0 - f;
  }

  /** The first largest of the entries before i, or 0 when they are all zero. */
  ghost predicate TopBefore(freqs: seq<nat>, i: nat, max: nat, top: nat) {
    && i <= |freqs|
    && (forall j :: 0 <= j < i ==> freqs[j] <= max)
    && if max == 0 then top == 0 else top < i && freqs[top] == max && forall j :: 0 <= j < top ==> freqs[j] < max
  }

  lemma {:induction false} NextTop(freqs: seq<nat>, i: nat, max: nat, top: nat, next: seq<nat>)
    requires i < |freqs| == |next| && TopBefore(freqs, i, max, top) && freqs[..i] == next[..i]
    ensures if next[i] > max then TopBefore(next, i + 1, next[i], i) else TopBefore(next, i + 1, max, top)
  {
    assert forall j :: 0 <= j < i ==> next[j] == next[..i][j] == freqs[j];
  }

  lemma {:induction false} SharesGiven(counts: seq<nat>, p: nat, freqs: seq<nat>, max: nat, top: nat)
    requires p <= 15 && 0 < Sum(counts) && SharedTo(counts, p, freqs, |counts|)
    requires TopBefore(freqs, |counts|, max, top)
    ensures freqs == Shares(counts, p) && IsTop(freqs, top) && freqs[top] == max
  {
    if max == 0 {
      AllZeroSum(counts);
    }
  }

  /** The first pass: each symbol's rounded share, at least one state each. */
  method FirstShares(counts: seq<nat>, nstates: nat, sCount: nat, freqs: array<nat>, ghost p: nat)
    returns (remaining: int, maxFreq: nat, maxFreqSym: nat)
    requires nstates == Pow2(p) && p <= 15 && 0 < sCount == Sum(counts) < STEP_ONE
    requires freqs.Length == |counts| && forall i :: 0 <= i < freqs.Length ==> freqs[i] == 0
    modifies freqs
    ensures freqs[..] == Shares(counts, p) && Sum(freqs[..]) + remaining == nstates
    ensures IsTop(freqs[..], maxFreqSym) && freqs[maxFreqSym] == maxFreq
  {
    var shift := Clz32(nstates) - 1;
    BitLenUnique(nstates, p + 1);
    var highprecStep: nat := Step(sCount);
    remaining, maxFreq, maxFreqSym := nstates, 0, 0;
    assert freqs[..] == seq(|counts|, _ => 0);
    SumZero(|counts|);
    for i := 0 to |counts|
      invariant SharedTo(counts, p, freqs[..], i)
      invariant Sum(freqs[..]) + remaining == nstates
      invariant TopBefore(freqs[..], i, maxFreq, maxFreqSym)
    {
      var c := counts[i];
      ghost var was := freqs[..];
      if c == 0 {
        NextTop(was, i, maxFreq, maxFreqSym, was);
        continue;
      }
      EntryAtMostSum(counts, i);
      var f := Share(c, sCount, shift, highprecStep, p);
      remaining := GiveStates(counts, freqs, i, f, remaining, p);
      NextTop(was, i, maxFreq, maxFreqSym, freqs[..]);
      if f > maxFreq {
        maxFreq, maxFreqSym := f, i;
      }
    }
    SharesGiven(counts, p, freqs[..], maxFreq, maxFreqSym);
  }

  lemma {:induction false} AllZeroSum(s: seq<nat>)
    requires forall i :: 0 <= i < |s| ==> s[i] == 0
    ensures Sum(s) == 0
  {
    if s == [] {
    } else {
      AllZeroSum(s[..|s| - 1]);
    }
  }

  lemma LastApart(q: seq<nat>, s: seq<nat>, i: nat)
    requires i < |s|
    ensures q + s[i..] == q + s[..|s| - 1][i..] + [s[|s| - 1]]
  {
  }

  /** Nobody gives anything once all is paid. */
  lemma {:induction false} NobodyAfter(freqs: seq<nat>, owed: nat, shift: nat, i: nat)
    requires i <= |freqs| && AfterPass(Debt(freqs[..i], owed), shift).owed == 0
    ensures AfterPass(Debt(freqs, owed), shift)
      == Debt(AfterPass(Debt(freqs[..i], owed), shift).freqs + freqs[i..], 0)
    decreases |freqs|
  {
    var n := |freqs| - 1;
    if i == n + 1 {
      assert freqs[..i] == freqs;
    } else {
      assert freqs[..n][..i] == freqs[..i];
      NobodyAfter(freqs[..n], owed, shift, i);
      LastApart(AfterPass(Debt(freqs[..i], owed), shift).freqs, freqs, i);
    }
  }

  /** r is the debt when the first i symbols have given. */
  ghost predicate PassedTo(freqs: seq<nat>, owed: nat, shift: nat, i: nat, r: Debt) {
    i <= |freqs| && IsPass(Debt(freqs[..i], owed), shift, r)
  }

  lemma {:induction false} PassStep(freqs: seq<nat>, owed: nat, shift: nat, i: nat, r: Debt, n: nat)
    requires i < |freqs| && PassedTo(freqs, owed, shift, i, r) && n == Min(Give(freqs[i], shift), r.owed)
    ensures n <= freqs[i] && n <= r.owed
    ensures PassedTo(freqs, owed, shift, i + 1, Debt(r.freqs + [freqs[i] - n], r.owed - n))
  {
    assert freqs[..i + 1][..i] == freqs[..i];
    assert r == AfterPass(Debt(freqs[..i], owed), shift);
  }

  lemma {:induction false} PassEnds(freqs: seq<nat>, owed: nat, shift: nat, i: nat, r: Debt)
    requires PassedTo(freqs, owed, shift, i, r) && (r.owed == 0 || i == |freqs|)
    ensures IsPass(Debt(freqs, owed), shift, Debt(r.freqs + freqs[i..], r.owed))
  {
    assert r == AfterPass(Debt(freqs[..i], owed), shift);
    if r.owed == 0 {
      NobodyAfter(freqs, owed, shift, i);
    } else {
      assert freqs[..i] == freqs && r.freqs + freqs[i..] == r.freqs;
    }
  }

  /** Symbol sym gives what it can, at most what is owed. */
  method TakeStates(freqs: array<nat>, sym: nat, shift: nat, remaining: int, ghost was: seq<nat>, ghost owed: nat)
    returns (n: nat)
    requires sym < freqs.Length && remaining < 0 && freqs.Length == |was| && freqs[sym..] == was[sym..]
    requires PassedTo(was, owed, shift, sym, Debt(freqs[..sym], -remaining))
    modifies freqs
    ensures n <= -remaining
    ensures PassedTo(was, owed, shift, sym + 1, Debt(freqs[..sym + 1], -remaining - n))
    ensures freqs[sym + 1..] == was[sym + 1..]
  {
    n := 0;
    if freqs[sym] > 1 {
      n := Shr(freqs[sym] - 1, shift);
      ShrLeq(freqs[sym] - 1, shift);
      if n > -remaining {
        n := -remaining;
      }
    }
    assert freqs[sym..][0] == was[sym..][0];
    PassStep(was, owed, shift, sym, Debt(freqs[..sym], -remaining), n);
    ghost var front := freqs[..sym];
    freqs[sym] := freqs[sym] - n;
    assert freqs[..sym + 1] == front + [was[sym] - n];
  }

  /** One pass over the symbols: each gives in order until nothing is owed. */
  method AdjustPass(freqs: array<nat>, shift: nat, rem: int) returns (remaining: int, any: bool)
    requires rem < 0
    modifies freqs
    ensures remaining <= 0 && IsPass(Debt(old(freqs[..]), -rem), shift, Debt(freqs[..], -remaining))
    ensures any <==> rem < remaining
  {
    ghost var was := freqs[..];
    remaining, any := rem, false;
    var sym := 0;
    while sym < freqs.Length && remaining != 0
      invariant 0 <= sym <= freqs.Length && rem <= remaining <= 0
      invariant PassedTo(was, -rem, shift, sym, Debt(freqs[..sym], -remaining))
      invariant freqs[sym..] == was[sym..]
      invariant any <==> rem < remaining
    {
      var n := TakeStates(freqs, sym, shift, remaining, was, -rem);
      remaining, any := remaining + n, any || n > 0;
      sym := sym + 1;
    }
    PassEnds(was, -rem, shift, sym, Debt(freqs[..sym], -remaining));
    assert freqs[..] == freqs[..sym] + freqs[sym..];
  }

  /** Takes states back, round after round, until none are owed or nobody can give. */
  method AdjustFreqs(freqs: array<nat>, rem: int)
    requires rem <= 0
    modifies freqs
    ensures IsRepaid(Debt(old(freqs[..]), -rem), freqs[..])
  {
    ghost var start := Debt(freqs[..], -rem);
    var remaining := rem;
    while remaining != 0
      invariant remaining <= 0
      invariant Repaid(Debt(freqs[..], -remaining)) == Repaid(start)
      decreases -remaining
    {
      var any := false;
      var shift := 3;
      ghost var before := Debt(freqs[..], -remaining);
      while shift >= 0 && remaining != 0
        invariant -1 <= shift <= 3 && 0 <= -remaining <= before.owed
        invariant Round(Debt(freqs[..], -remaining), shift) == Round(before, 3)
        invariant any <==> -remaining < before.owed
        decreases shift
      {
        var took;
        ghost var d := Debt(freqs[..], -remaining);
        remaining, took := AdjustPass(freqs, shift, remaining);
        assert Debt(freqs[..], -remaining) == AfterPass(d, shift);
        any := any || took;
        shift := shift - 1;
      }
      RoundKeeps(Debt(freqs[..], -remaining), shift);
      assert Debt(freqs[..], -remaining) == Round(before, 3);
      if !any {
        RoundKeeps(before, 3);
        break;
      }
    }
  }

  /** Gives the most frequent symbol all the states that remain, or takes back those that are owed. */
  method Correct(freqs: array<nat>, remaining: int, maxFreq: nat, maxFreqSym: nat)
    requires maxFreqSym < freqs.Length && freqs[maxFreqSym] == maxFreq > 0
    modifies freqs
    ensures Corrected(old(freqs[..]), -remaining, maxFreqSym, freqs[..])
  {
    if -remaining < maxFreq / 4 {
      ghost var was := freqs[..];
      freqs[maxFreqSym] := freqs[maxFreqSym] + remaining;
      assert freqs[..] == was[maxFreqSym := was[maxFreqSym] + remaining];
    } else {
      AdjustFreqs(freqs, remaining);
    }
  }

  /**
   * For every histogram with 0 < total < 2^31 the result is its frequency table. It gives states to exactly the
   * symbols that occur and sums to exactly nstates, unless more symbols occur than there are states (then each
   * gets one).
   */
  method NormalizeFreq(counts: seq<nat>, nstates: nat, ghost p: nat) returns (ok: bool, freqs: array<nat>)
    requires nstates == Pow2(p) && p <= 15
    requires Sum(counts) < STEP_ONE
    ensures ok <==> Sum(counts) > 0
    ensures fresh(freqs)
    ensures ok ==> IsNormalized(counts, p, freqs[..])
    ensures ok ==> SameSupport(freqs[..], counts) && Sum(freqs[..]) == Max(nstates, Distinct(counts))
    ensures ok ==> forall i :: 0 <= i < freqs.Length ==> freqs[i] <= nstates < 0x1_0000
  {
    assert nstates <= 32768 by {
      Pow2Values();
      Pow2Mono(p, 15);
    }
    var sCount := 0;
    for i := 0 to |counts|
      invariant sCount == Offset(counts, i)
    {
      OffsetStep(counts, i);
      sCount := sCount + counts[i];
    }
    assert counts[..|counts|] == counts;
    freqs := new nat[|counts|](_ => 0);
    if sCount == 0 { return false, freqs; }
    var remaining, maxFreq, maxFreqSym := FirstShares(counts, nstates, sCount, freqs, p);
    Correct(freqs, remaining, maxFreq, maxFreqSym);
    NormalizedFits(counts, p, freqs[..]);
    return true, freqs;
  }
}
