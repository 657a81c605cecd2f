/** The L, M and D symbol tables: every value is one base plus a residual that fits the symbol's extra bits. */
module Lmd {
  import opened Bits

  const L_EXTRA: seq<nat> := [0, 0, 0, 0, 0, 0, 0, 0, 0, 0, 0, 0, 0, 0, 0, 0, 2, 3, 5, 8]
  const L_BASE: seq<int> := [0, 1, 2, 3, 4, 5, 6, 7, 8, 9, 10, 11, 12, 13, 14, 15, 16, 20, 28, 60]

  const M_EXTRA: seq<nat> := [0, 0, 0, 0, 0, 0, 0, 0, 0, 0, 0, 0, 0, 0, 0, 0, 3, 5, 8, 11]
  const M_BASE: seq<int> := [0, 1, 2, 3, 4, 5, 6, 7, 8, 9, 10, 11, 12, 13, 14, 15, 16, 24, 56, 312]

  // The 64 distance symbols in four rows of 16.
  const D_EXTRA_0: seq<nat> := [0, 0, 0, 0, 1, 1, 1, 1, 2, 2, 2, 2, 3, 3, 3, 3]
  const D_EXTRA_1: seq<nat> := [4, 4, 4, 4, 5, 5, 5, 5, 6, 6, 6, 6, 7, 7, 7, 7]
  const D_EXTRA_2: seq<nat> := [8, 8, 8, 8, 9, 9, 9, 9, 10, 10, 10, 10, 11, 11, 11, 11]
  const D_EXTRA_3: seq<nat> := [12, 12, 12, 12, 13, 13, 13, 13, 14, 14, 14, 14, 15, 15, 15, 15]
  const D_BASE_0: seq<int> := [0, 1, 2, 3, 4, 6, 8, 10, 12, 16, 20, 24, 28, 36, 44, 52]
  const D_BASE_1: seq<int> := [60, 76, 92, 108, 124, 156, 188, 220, 252, 316, 380, 444, 508, 636, 764, 892]
  const D_BASE_2: seq<int> := [1020, 1276, 1532, 1788, 2044, 2556, 3068, 3580,
                               4092, 5116, 6140, 7164, 8188, 10236, 12284, 14332]
  const D_BASE_3: seq<int> := [16380, 20476, 24572, 28668, 32764, 40956, 49148, 57340,
                               65532, 81916, 98300, 114684, 131068, 163836, 196604, 229372]
  const D_EXTRA: seq<nat> := D_EXTRA_0 + D_EXTRA_1 + D_EXTRA_2 + D_EXTRA_3
  const D_BASE: seq<int> := D_BASE_0 + D_BASE_1 + D_BASE_2 + D_BASE_3

  const MAX_L := 315
  const MAX_M := 2359
  const MAX_D := 262139

  /** Each symbol's range starts where the previous one's ends; the ranges cover first..last. */
  predicate Row(base: seq<int>, extra: seq<nat>, first: int, last: int) {
    && 0 < |base| == |extra| && base[0] == first
    && (forall s :: 0 <= s < |base| - 1 ==> base[s + 1] == base[s] + Pow2(extra[s]))
    && base[|base| - 1] + Pow2(extra[|base| - 1]) == last + 1
  }

  lemma JoinRows(base1: seq<int>, extra1: seq<nat>, base2: seq<int>, extra2: seq<nat>, first: int, mid: int, last: int)
    requires Row(base1, extra1, first, mid) && Row(base2, extra2, mid + 1, last)
    ensures Row(base1 + base2, extra1 + extra2, first, last)
  {
    var base, extra, n := base1 + base2, extra1 + extra2, |base1|;
    forall s | 0 <= s < |base| - 1
      ensures base[s + 1] == base[s] + Pow2(extra[s])
    {
      if s >= n { assert base2[s - n + 1] == base2[s - n] + Pow2(extra2[s - n]); }
    }
  }

  lemma LTable()
    ensures Row(L_BASE, L_EXTRA, 0, MAX_L)
  {
    Pow2Values();
  }

  lemma MTable()
    ensures Row(M_BASE, M_EXTRA, 0, MAX_M)
  {
    Pow2Values();
  }

  lemma DRows01()
    ensures Row(D_BASE_0, D_EXTRA_0, 0, 59) && Row(D_BASE_1, D_EXTRA_1, 60, 1019)
  {
    Pow2Values();
  }

  lemma DRows23()
    ensures Row(D_BASE_2, D_EXTRA_2, 1020, 16379) && Row(D_BASE_3, D_EXTRA_3, 16380, MAX_D)
  {
    Pow2Values();
  }

  lemma DTable()
    ensures Row(D_BASE, D_EXTRA, 0, MAX_D)
  {
    DRows01();
    DRows23();
    JoinRows(D_BASE_0, D_EXTRA_0, D_BASE_1, D_EXTRA_1, 0, 59, 1019);
    JoinRows(D_BASE_0 + D_BASE_1, D_EXTRA_0 + D_EXTRA_1, D_BASE_2, D_EXTRA_2, 0, 1019, 16379);
    JoinRows(D_BASE_0 + D_BASE_1 + D_BASE_2, D_EXTRA_0 + D_EXTRA_1 + D_EXTRA_2, D_BASE_3, D_EXTRA_3,
             0, 16379, MAX_D);
  }

  lemma {:induction false} RowAscends(base: seq<int>, extra: seq<nat>, first: int, last: int, a: nat, b: nat)
    requires Row(base, extra, first, last) && a <= b < |base|
    ensures base[a] <= base[b] && (a < b ==> base[a] + Pow2(extra[a]) <= base[b])
    decreases b - a
  {
    if a == b {
    } else {
      RowAscends(base, extra, first, last, a, b - 1);
    }
  }

  lemma RowBounds(base: seq<int>, extra: seq<nat>, first: int, last: int, s: nat)
    requires Row(base, extra, first, last) && s < |base|
    ensures first <= base[s] && base[s] + Pow2(extra[s]) <= last + 1
  {
    RowAscends(base, extra, first, last, 0, s);
    RowAscends(base, extra, first, last, s, |base| - 1);
  }

  /** The symbol of a value: the last whose base does not exceed it. */
  function SymbolFrom(v: int, base: seq<int>, s: nat): (r: nat)
    requires s < |base|
    ensures r <= s
  {
    if v >= base[s] || s == 0 then s else SymbolFrom(v, base, s - 1)
  }

  function Symbol(v: int, base: seq<int>): (r: nat)
    requires base != []
    ensures r < |base|
  {
    SymbolFrom(v, base, |base| - 1)
  }

  predicate Represents(v: int, base: seq<int>, extra: seq<nat>, s: nat) {
    s < |base| && s < |extra| && base[s] <= v < base[s] + Pow2(extra[s])
  }

  lemma {:induction false} SymbolFromWorks(v: int, base: seq<int>, extra: seq<nat>, last: int, s: nat)
    requires Row(base, extra, 0, last) && 0 <= v && s < |base| && v < base[s] + Pow2(extra[s])
    ensures Represents(v, base, extra, SymbolFrom(v, base, s))
  {
    if v >= base[s] {
    } else {
      SymbolFromWorks(v, base, extra, last, s - 1);
    }
  }

  /** Every value in range is one symbol's base plus a residual below 2^extra, and no other symbol's. */
  lemma SymbolUnique(v: int, base: seq<int>, extra: seq<nat>, last: int)
    requires Row(base, extra, 0, last) && 0 <= v <= last
    ensures Represents(v, base, extra, Symbol(v, base))
    ensures forall s: nat :: Represents(v, base, extra, s) ==> s == Symbol(v, base)
  {
    SymbolFromWorks(v, base, extra, last, |base| - 1);
    var t := Symbol(v, base);
    forall s: nat | Represents(v, base, extra, s)
      ensures s == t
    {
      if s < t { RowAscends(base, extra, 0, last, s, t); }
      if t < s { RowAscends(base, extra, 0, last, t, s); }
    }
  }

  // ---------------------------------------------------------------- the tables in closed form

  /** A value that lies in a symbol's range has that symbol. */
  lemma SymbolIs(v: int, base: seq<int>, extra: seq<nat>, last: int, s: nat)
    requires Row(base, extra, 0, last) && 0 <= v <= last && Represents(v, base, extra, s)
    ensures Symbol(v, base) == s
  {
    SymbolUnique(v, base, extra, last);
  }

  /** The L symbol of every length and its residual: 0 to 15, then ranges of 4, 8, 32 and 256. */
  lemma LSymbols(v: nat)
    requires v <= 315
    ensures var s := Symbol(v, L_BASE);
            && s == (if v < 16 then v else if v < 20 then 16 else if v < 28 then 17 else if v < 60 then 18 else 19)
            && v - L_BASE[s]
               == (if v < 16 then 0 else if v < 20 then v - 16 else if v < 28 then v - 20
                   else if v < 60 then v - 28 else v - 60)
            && L_EXTRA[s] == (if s < 16 then 0 else if s == 16 then 2 else if s == 17 then 3 else if s == 18 then 5
                              else 8)
  {
    LTable();
    Pow2Values();
    var s := if v < 16 then v else if v < 20 then 16 else if v < 28 then 17 else if v < 60 then 18 else 19;
    SmallSymbols(v);
    SymbolIs(v, L_BASE, L_EXTRA, MAX_L, s);
  }

  /** The M symbol of every length and its residual: 0 to 15, then ranges of 8, 32, 256 and 2048. */
  lemma MSymbols(v: nat)
    requires v <= 2359
    ensures var s := Symbol(v, M_BASE);
            && s == (if v < 16 then v else if v < 24 then 16 else if v < 56 then 17 else if v < 312 then 18 else 19)
            && v - M_BASE[s]
               == (if v < 16 then 0 else if v < 24 then v - 16 else if v < 56 then v - 24
                   else if v < 312 then v - 56 else v - 312)
            && M_EXTRA[s] == (if s < 16 then 0 else if s == 16 then 3 else if s == 17 then 5 else if s == 18 then 8
                              else 11)
  {
    MTable();
    Pow2Values();
    var s := if v < 16 then v else if v < 24 then 16 else if v < 56 then 17 else if v < 312 then 18 else 19;
    SmallSymbols(v);
    SymbolIs(v, M_BASE, M_EXTRA, MAX_M, s);
  }

  /** The first 16 symbols of both tables stand for themselves. */
  lemma SmallSymbols(v: nat)
    ensures v < 16 ==> L_BASE[v] == M_BASE[v] == v && L_EXTRA[v] == M_EXTRA[v] == 0
  {
  }

  lemma ExtraRow(row: seq<nat>, q: nat, i: nat)
    requires row == [q, q, q, q, q + 1, q + 1, q + 1, q + 1, q + 2, q + 2, q + 2, q + 2, q + 3, q + 3, q + 3, q + 3]
    requires i < 16
    ensures row[i] == (4 * q + i) / 4
  {
  }

  /** Distance symbols have as many extra bits as there are whole groups of four before them. */
  lemma DSymbolExtra(s: nat)
    requires s < 64
    ensures D_EXTRA[s] == s / 4
  {
    if s < 16 {
      ExtraRow(D_EXTRA_0, 0, s);
    } else if s < 32 {
      ExtraRow(D_EXTRA_1, 4, s - 16);
    } else if s < 48 {
      ExtraRow(D_EXTRA_2, 8, s - 32);
    } else {
      ExtraRow(D_EXTRA_3, 12, s - 48);
    }
  }

  /** Bases that follow one another, four with q extra bits for each q. */
  lemma {:induction false} QuarterRow(base: seq<int>, extra: seq<nat>, last: int, s: nat)
    requires Row(base, extra, 0, last) && s < |base| && forall k :: 0 <= k < |base| ==> extra[k] == k / 4
    ensures base[s] == (4 + s % 4) * Pow2(s / 4) - 4
  {
    if s == 0 {
    } else {
      QuarterRow(base, extra, last, s - 1);
      assert base[s - 1 + 1] == base[s - 1] + Pow2(extra[s - 1]);
      NextBase(s - 1, base[s - 1], base[s]);
    }
  }

  /** Distance symbol 4q + r is (4 + r) * 2^q - 4 with q extra bits. */
  lemma DSymbolBase(s: nat)
    requires s < 64
    ensures D_EXTRA[s] == s / 4 && D_BASE[s] == (4 + s % 4) * Pow2(s / 4) - 4
  {
    forall k | 0 <= k < 64
      ensures D_EXTRA[k] == k / 4
    {
      DSymbolExtra(k);
    }
    DTable();
    QuarterRow(D_BASE, D_EXTRA, MAX_D, s);
  }

  lemma NextBase(s: nat, b: int, c: int)
    requires b == (4 + s % 4) * Pow2(s / 4) - 4 && c == b + Pow2(s / 4)
    ensures c == (4 + (s + 1) % 4) * Pow2((s + 1) / 4) - 4
  {
    var q, r, p := s / 4, s % 4, Pow2(s / 4);
    MulDistributes(4 + r, 1, p);
    if r < 3 {
      DivModUnique(s + 1, 4, q, r + 1);
    } else {
      DivModUnique(s + 1, 4, q + 1, 0);
    }
  }

  /** The range of distance symbol 4q + r. */
  lemma DSymbolAt(v: nat, q: nat, r: nat, p: nat)
    requires v <= 262139 && q <= 15 && r < 4 && p == Pow2(q) && (4 + r) * p <= v + 4 < (4 + r) * p + p
    ensures Symbol(v, D_BASE) == 4 * q + r
  {
    var s := 4 * q + r;
    DivModUnique(s, 4, q, r);
    DSymbolBase(s);
    DTable();
    SymbolIs(v, D_BASE, D_EXTRA, MAX_D, s);
  }

  /** The distance symbol of every distance: the position of the top bit of v + 4 and the two bits below it. */
  lemma DSymbols(v: nat)
    requires v <= 262139
    ensures BitLen(v + 4) >= 3
    ensures var q := BitLen(v + 4) - 3; Symbol(v, D_BASE) == 4 * q + (v + 4) / Pow2(q) - 4
  {
    var w := v + 4;
    TopBit(w);
    DSymbolOfQuotient(v, BitLen(w) - 3, Pow2(BitLen(w) - 3));
  }

  lemma DSymbolOfQuotient(v: nat, q: nat, p: nat)
    requires v <= 262139 && q <= 15 && p == Pow2(q) && 4 * p <= v + 4 < 8 * p
    ensures Symbol(v, D_BASE) == 4 * q + (v + 4) / p - 4
  {
    var m := (v + 4) / p;
    DivMod(v + 4, p);
    QuotientRange(v + 4, p, m);
    DSymbolAt(v, q, m - 4, p);
  }

  lemma TopBit(w: nat)
    requires 4 <= w < 262144
    ensures 3 <= BitLen(w) <= 18 && 4 * Pow2(BitLen(w) - 3) <= w < 8 * Pow2(BitLen(w) - 3)
  {
    BitLenBounds(w);
    Pow2Values();
    if BitLen(w) < 3 { Pow2Mono(BitLen(w), 2); }
    Pow2Add(16, 2);
    if BitLen(w) > 18 { Pow2Mono(18, BitLen(w) - 1); }
    Pow2Add(BitLen(w) - 3, 2);
    Pow2Add(BitLen(w) - 3, 3);
  }

  lemma QuotientRange(w: nat, p: nat, m: int)
    requires p > 0 && 4 * p <= w < 8 * p && m * p <= w < m * p + p
    ensures 4 <= m < 8
  {
    if m <= 3 { MulLeq(m, 3, p); }
    if m >= 8 { MulLeq(8, m, p); }
  }

  method LmdSymbol(v: int, base: seq<int>, nsym: nat) returns (sym: nat)
    requires nsym == |base| > 0
    ensures sym == Symbol(v, base)
  {
    var s: int := nsym - 1;
    while s >= 0
      invariant -1 <= s < nsym
      invariant Symbol(v, base) == if s >= 0 then SymbolFrom(v, base, s) else 0
    {
      if v >= base[s] { return s; }
      s := s - 1;
    }
    return 0;
  }
}
