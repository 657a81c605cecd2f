/** FSE (tANS) tables: the decoder slots of a symbol, the encoder entry of a symbol, and why one inverts the other. */
module FseTables {
  import opened Bits

  /** bits.LeadingZeros32 for a value below 2^32. */
  function Clz32(x: nat): int {
    32 - BitLen(x)
  }

  /** x >> n on int; an out-of-range count (a negative int turned into uint) gives 0. */
  function ShrInt(x: nat, n: int): nat {
    if n < 0 then 0 else Shr(x, n)
  }

  datatype DecEntry = DecEntry(k: int, sym: nat, delta: int)

  datatype ValueEntry = ValueEntry(totalBits: int, valueBits: nat, delta: int, vbase: int)

  datatype EncEntry = EncEntry(s0: int, k: int, delta0: int, delta1: int)

  /** The larger of the two shift widths of a symbol of frequency f. */
  function Shift(f: nat, nstates: nat): int {
    Clz32(f) - Clz32(nstates)
  }

  /** How many of a symbol's slots use the larger shift. */
  function WideSlots(f: nat, nstates: nat): int {
    ShrInt(2 * nstates, Shift(f, nstates)) - f
  }

  /** State bits read in slot j of a symbol of frequency f. */
  function SlotBits(f: nat, nstates: nat, j: nat): int {
    if j < WideSlots(f, nstates) then Shift(f, nstates) else Shift(f, nstates) - 1
  }

  /** The lowest state slot j can lead to. */
  function SlotDelta(f: nat, nstates: nat, j: nat): int
    requires SlotBits(f, nstates, j) >= 0
  {
    if j < WideSlots(f, nstates) then Shl(f + j, SlotBits(f, nstates, j)) - nstates
    else Shl(j - WideSlots(f, nstates), SlotBits(f, nstates, j))
  }

  /** The encoder entry of a symbol of frequency f whose slots start at offset. */
  function EncSlot(f: nat, nstates: nat, offset: nat): (e: EncEntry)
    requires Shift(f, nstates) >= 0
  {
    var k := Shift(f, nstates);
    EncEntry(Shl(f, k) - nstates, k, offset - f + ShrInt(nstates, k), offset - f + ShrInt(nstates, k - 1))
  }

  /** What one encoder step writes and where it goes. */
  datatype EncStep = EncStep(nbits: nat, b: nat, next: int)

  function EncodeStep(e: EncEntry, s: nat): (r: EncStep)
    requires 0 <= e.k && (s < e.s0 ==> 1 <= e.k)
  {
    var nbits: nat := if s >= e.s0 then e.k else e.k - 1;
    var delta := if s >= e.s0 then e.delta0 else e.delta1;
    EncStep(nbits, Low(s, nbits), delta + ShrInt(s, nbits))
  }

  // ---------------------------------------------------------------- arithmetic

  lemma Pow2Quotient(p: nat, k: nat)
    requires k <= p
    ensures ShrInt(Pow2(p), k) == Pow2(p - k)
    ensures Pow2(p) == Pow2(p - k) * Pow2(k)
  {
    Pow2Add(p - k, k);
    ShrLowUnique(Pow2(p), k, Pow2(p - k), 0);
  }

  /** The shift puts f * 2^k in [nstates, 2 * nstates). */
  lemma ShiftBounds(f: nat, p: nat)
    requires 1 <= f <= Pow2(p)
    ensures 0 <= Shift(f, Pow2(p)) <= p
    ensures var q := Pow2(p - Shift(f, Pow2(p))); q <= f < 2 * q
    ensures Shift(f, Pow2(p)) == 0 ==> f == Pow2(p)
  {
    BitLenBounds(f);
    BitLenUnique(Pow2(p), p + 1);
    if BitLen(f) > p + 1 { Pow2Mono(p + 1, BitLen(f) - 1); }
  }

  /** Slot widths and the two sides of a symbol's slots in terms of one power q = 2^(p-k). */
  lemma SlotShape(f: nat, p: nat)
    requires 1 <= f <= Pow2(p)
    ensures var k := Shift(f, Pow2(p));
            && 0 <= k <= p
            && WideSlots(f, Pow2(p)) == 2 * Pow2(p - k) - f
            && 0 < WideSlots(f, Pow2(p)) <= f
            && Pow2(p) == Pow2(p - k) * Pow2(k)
            && (k == 0 ==> WideSlots(f, Pow2(p)) == f)
            && (k > 0 ==> Pow2(p) == Pow2(p - k + 1) * Pow2(k - 1) && Pow2(p - k + 1) == 2 * Pow2(p - k))
  {
    ShiftBounds(f, p);
    var k := Shift(f, Pow2(p));
    Pow2Quotient(p, k);
    Pow2Quotient(p + 1, k);
    assert 2 * Pow2(p) == Pow2(p + 1) && Pow2(p + 1 - k) == 2 * Pow2(p - k);
    if k > 0 { Pow2Quotient(p, k - 1); }
  }

  /** Every slot of a symbol: how many bits it reads and the interval of states it leads to. */
  lemma SlotRange(f: nat, p: nat, j: nat)
    requires 1 <= f <= Pow2(p) && j < f
    ensures 0 <= SlotBits(f, Pow2(p), j) <= p
    ensures 0 <= SlotDelta(f, Pow2(p), j)
    ensures SlotDelta(f, Pow2(p), j) + Pow2(SlotBits(f, Pow2(p), j)) <= Pow2(p)
  {
    SlotShape(f, p);
    ShiftBounds(f, p);
    var k, j0 := Shift(f, Pow2(p)), WideSlots(f, Pow2(p));
    if j < j0 {
      ShlMul(f + j, k);
      WideInterval(f + j, Pow2(p - k), Pow2(k));
    } else {
      ShlMul(j - j0, k - 1);
      MulUpper(j - j0, Pow2(p - k + 1), Pow2(k - 1));
    }
  }

  lemma WideInterval(a: int, q: int, kk: int)
    requires 0 < kk && q <= a < 2 * q
    ensures 0 <= a * kk - q * kk == (a - q) * kk && a * kk - q * kk + kk <= q * kk
  {
    MulDistributes(a, q, kk);
    MulLeq(0, a - q, kk);
    MulUpper(a - q, q, kk);
  }

  /** The quotient a state leaves when it is at or above the threshold f * kk - q * kk. */
  lemma WideQuotient(f: int, q: int, kk: int, t: nat, b: nat)
    requires 0 < kk && b < kk && f * kk - q * kk <= b + t * kk < q * kk
    ensures f - q <= t < q
    ensures (q + t) * kk - q * kk + b == b + t * kk
  {
    MulDistributes(f, q, kk);
    MulDistributes(t, 1, kk);
    MulBelow(f - q, t + 1, kk, 0);
    MulBelow(t, q, kk, b);
    MulDistributes(q, t, kk);
  }

  /** The quotient a state leaves below the threshold. */
  lemma NarrowQuotient(f: int, q: int, kk: int, t: nat, b: nat)
    requires 0 < kk && b < kk && b + t * kk < f * (2 * kk) - q * kk
    ensures t < 2 * f - q
  {
    MulAssoc(f, 2, kk);
    MulDistributes(2 * f, q, kk);
    MulBelow(t, 2 * f - q, kk, b);
  }

  /**
   * Encoding from state s at entry EncSlot(f, nstates, offset) lands in the symbol's own slots
   * [offset, offset + f), on the slot that reads back exactly the bits written and leads back to s.
   */
  ghost predicate EncodesInto(f: nat, nstates: nat, offset: nat, s: nat)
    requires 0 <= Shift(f, nstates)
  {
    var e := EncSlot(f, nstates, offset);
    && (s < e.s0 ==> 1 <= e.k)
    && var r := EncodeStep(e, s);
       && r.b < Pow2(r.nbits)
       && offset <= r.next < offset + f
       && SlotBits(f, nstates, r.next - offset) == r.nbits
       && SlotDelta(f, nstates, r.next - offset) + r.b == s
  }

  /** Slot widths and thresholds as one symbol's four numbers: q = 2^(p-k) and the two shift widths. */
  lemma WideBound(f: nat, p: nat, s: nat)
    requires 1 <= f <= Pow2(p) && s < Pow2(p) && 0 <= Shift(f, Pow2(p)) <= p
    requires s >= Shl(f, Shift(f, Pow2(p))) - Pow2(p)
    ensures var k := Shift(f, Pow2(p));
            var q := Pow2(p - k);
            && f - q <= Shr(s, k) < q
            && Shl(q + Shr(s, k), k) - Pow2(p) + Low(s, k) == s
  {
    var k := Shift(f, Pow2(p));
    Pow2Quotient(p, k);
    ShrLow(s, k);
    ShlMul(f, k);
    WideQuotient(f, Pow2(p - k), Pow2(k), Shr(s, k), Low(s, k));
    ShlMul(Pow2(p - k) + Shr(s, k), k);
  }

  lemma NarrowBound(f: nat, p: nat, k: nat, s: nat)
    requires 1 <= k <= p && s < Shl(f, k) - Pow2(p)
    ensures Shr(s, k - 1) < 2 * f - Pow2(p - k + 1)
    ensures Shl(Shr(s, k - 1), k - 1) + Low(s, k - 1) == s
  {
    Pow2Quotient(p, k - 1);
    ShrLow(s, k - 1);
    ShlMul(f, k);
    NarrowQuotient(f, Pow2(p - k + 1), Pow2(k - 1), Shr(s, k - 1), Low(s, k - 1));
    ShlMul(Shr(s, k - 1), k - 1);
  }

  lemma WideSlotIs(f: nat, n: nat, j: nat, x: nat, k: nat)
    requires Shift(f, n) == k && j < WideSlots(f, n) && x == f + j
    ensures SlotBits(f, n, j) == k && SlotDelta(f, n, j) == Shl(x, k) - n
  {
  }

  lemma NarrowSlotIs(f: nat, n: nat, j: nat, i: nat, k: nat)
    requires Shift(f, n) == k >= 1 && j >= WideSlots(f, n) && i == j - WideSlots(f, n)
    ensures SlotBits(f, n, j) == k - 1 && SlotDelta(f, n, j) == Shl(i, k - 1)
  {
  }

  lemma WideEncode(f: nat, n: nat, offset: nat, s: nat, k: nat, q: nat)
    requires Shift(f, n) == k && s >= Shl(f, k) - n && ShrInt(n, k) == q
    ensures EncodeStep(EncSlot(f, n, offset), s) == EncStep(k, Low(s, k), offset - f + q + Shr(s, k))
  {
  }

  lemma NarrowEncode(f: nat, n: nat, offset: nat, s: nat, k: nat, q: nat)
    requires Shift(f, n) == k >= 1 && s < Shl(f, k) - n && ShrInt(n, k - 1) == q
    ensures EncodeStep(EncSlot(f, n, offset), s) == EncStep(k - 1, Low(s, k - 1), offset - f + q + Shr(s, k - 1))
  {
  }

  lemma LandsOn(f: nat, n: nat, offset: nat, s: nat, r: EncStep, j: nat)
    requires 0 <= Shift(f, n) && (s < EncSlot(f, n, offset).s0 ==> 1 <= Shift(f, n))
    requires EncodeStep(EncSlot(f, n, offset), s) == r && r.b < Pow2(r.nbits)
    requires r.next == offset + j && j < f && SlotBits(f, n, j) == r.nbits && SlotDelta(f, n, j) + r.b == s
    ensures EncodesInto(f, n, offset, s)
  {
  }

  lemma WideStep(f: nat, p: nat, offset: nat, s: nat)
    requires 1 <= f <= Pow2(p) && s < Pow2(p)
    requires 0 <= Shift(f, Pow2(p)) && s >= EncSlot(f, Pow2(p), offset).s0
    ensures EncodesInto(f, Pow2(p), offset, s)
  {
    SlotShape(f, p);
    WideBound(f, p, s);
    var k := Shift(f, Pow2(p));
    var q, t := Pow2(p - k), Shr(s, k);
    Pow2Quotient(p, k);
    ShrLow(s, k);
    WideLands(f, Pow2(p), offset, s, k, q, t, Low(s, k));
  }

  lemma WideLands(f: nat, n: nat, offset: nat, s: nat, k: nat, q: nat, t: nat, b: nat)
    requires Shift(f, n) == k && ShrInt(n, k) == q && WideSlots(f, n) == 2 * q - f && q <= f
    requires t == Shr(s, k) && b == Low(s, k) < Pow2(k) && f - q <= t < q
    requires s >= Shl(f, k) - n && Shl(q + t, k) - n + b == s
    ensures EncodesInto(f, n, offset, s)
  {
    WideEncode(f, n, offset, s, k, q);
    WideSlotIs(f, n, q + t - f, q + t, k);
    LandsOn(f, n, offset, s, EncStep(k, b, offset - f + q + t), q + t - f);
  }

  lemma NarrowStep(f: nat, p: nat, offset: nat, s: nat)
    requires 1 <= f <= Pow2(p) && s < Pow2(p)
    requires 0 <= Shift(f, Pow2(p)) && s < EncSlot(f, Pow2(p), offset).s0
    ensures EncodesInto(f, Pow2(p), offset, s)
  {
    SlotShape(f, p);
    ShiftBounds(f, p);
    var k := Shift(f, Pow2(p));
    var q, t := Pow2(p - k + 1), Shr(s, k - 1);
    Pow2Quotient(p, k - 1);
    ShrLow(s, k - 1);
    NarrowBound(f, p, k, s);
    NarrowEncode(f, Pow2(p), offset, s, k, q);
    NarrowSlotIs(f, Pow2(p), q + t - f, t, k);
    LandsOn(f, Pow2(p), offset, s, EncStep(k - 1, Low(s, k - 1), offset - f + q + t), q + t - f);
  }

  /** The FSE step: encoding a symbol of frequency f from any state is undone by the slot it lands on. */
  lemma EncodeThenDecode(f: nat, p: nat, offset: nat, s: nat)
    requires 1 <= f <= Pow2(p) && s < Pow2(p)
    ensures Shift(f, Pow2(p)) >= 0
    ensures EncodesInto(f, Pow2(p), offset, s)
  {
    ShiftBounds(f, p);
    if s >= EncSlot(f, Pow2(p), offset).s0 {
      WideStep(f, p, offset, s);
    } else {
      NarrowStep(f, p, offset, s);
    }
  }

  lemma WideState(f: nat, p: nat, k: nat, j: nat, b: nat)
    requires k <= p && b < Pow2(k) && Pow2(p - k) <= f && f + j < 2 * Pow2(p - k)
    ensures var s := Shl(f + j, k) - Pow2(p) + b;
            && 0 <= s && Shl(f, k) - Pow2(p) <= s
            && Shr(s, k) == f + j - Pow2(p - k) && Low(s, k) == b
  {
    var q, kk := Pow2(p - k), Pow2(k);
    Pow2Quotient(p, k);
    ShlMul(f, k);
    ShlMul(f + j, k);
    WideInterval(f + j, q, kk);
    MulLeq(f, f + j, kk);
    ShrLowUnique(Shl(f + j, k) - Pow2(p) + b, k, f + j - q, b);
  }

  lemma NarrowState(f: nat, p: nat, k: nat, i: nat, b: nat)
    requires 1 <= k <= p && b < Pow2(k - 1) && i < 2 * f - Pow2(p - k + 1)
    ensures var s := Shl(i, k - 1) + b;
            s < Shl(f, k) - Pow2(p) && Shr(s, k - 1) == i && Low(s, k - 1) == b
  {
    var q, kk := Pow2(p - k + 1), Pow2(k - 1);
    Pow2Quotient(p, k - 1);
    ShlMul(f, k);
    ShlMul(i, k - 1);
    ShrLowUnique(Shl(i, k - 1) + b, k - 1, i, b);
    MulAssoc(f, 2, kk);
    MulDistributes(2 * f, q, kk);
    MulUpper(i, 2 * f - q, kk);
  }

  /** Encoding from every state slot j leads to comes back to that slot. */
  ghost predicate ComesBack(f: nat, p: nat, offset: nat, j: nat, b: nat)
    requires 0 <= Shift(f, Pow2(p)) && SlotBits(f, Pow2(p), j) >= 0
  {
    var e := EncSlot(f, Pow2(p), offset);
    var s := SlotDelta(f, Pow2(p), j) + b;
    && 0 <= s < Pow2(p)
    && 0 <= e.k && (s < e.s0 ==> 1 <= e.k)
    && EncodeStep(e, s) == EncStep(SlotBits(f, Pow2(p), j), b, offset + j)
  }

  lemma IsBack(f: nat, p: nat, offset: nat, j: nat, b: nat, bits: nat, s: nat)
    requires 0 <= Shift(f, Pow2(p)) && SlotBits(f, Pow2(p), j) == bits && s < Pow2(p)
    requires SlotDelta(f, Pow2(p), j) + b == s
    requires s < EncSlot(f, Pow2(p), offset).s0 ==> 1 <= Shift(f, Pow2(p))
    requires EncodeStep(EncSlot(f, Pow2(p), offset), s) == EncStep(bits, b, offset + j)
    ensures ComesBack(f, p, offset, j, b)
  {
  }

  lemma WideBack(f: nat, p: nat, offset: nat, j: nat, b: nat)
    requires 1 <= f <= Pow2(p) && j < f && 0 <= Shift(f, Pow2(p)) && j < WideSlots(f, Pow2(p))
    requires SlotBits(f, Pow2(p), j) >= 0 && b < Pow2(SlotBits(f, Pow2(p), j))
    ensures ComesBack(f, p, offset, j, b)
  {
    SlotShape(f, p);
    ShiftBounds(f, p);
    SlotRange(f, p, j);
    var k := Shift(f, Pow2(p));
    WideSlotIs(f, Pow2(p), j, f + j, k);
    WideReturns(f, p, offset, j, b, k);
  }

  lemma WideReturns(f: nat, p: nat, offset: nat, j: nat, b: nat, k: nat)
    requires k == Shift(f, Pow2(p)) <= p && b < Pow2(k) && Pow2(p - k) <= f && f + j < 2 * Pow2(p - k)
    requires SlotBits(f, Pow2(p), j) == k && SlotDelta(f, Pow2(p), j) == Shl(f + j, k) - Pow2(p)
    requires Shl(f + j, k) - Pow2(p) + Pow2(k) <= Pow2(p)
    ensures ComesBack(f, p, offset, j, b)
  {
    Pow2Quotient(p, k);
    WideState(f, p, k, j, b);
    var s := Shl(f + j, k) - Pow2(p) + b;
    WideEncode(f, Pow2(p), offset, s, k, Pow2(p - k));
    IsBack(f, p, offset, j, b, k, s);
  }

  lemma NarrowBack(f: nat, p: nat, offset: nat, j: nat, b: nat)
    requires 1 <= f <= Pow2(p) && j < f && 0 <= Shift(f, Pow2(p)) && j >= WideSlots(f, Pow2(p))
    requires SlotBits(f, Pow2(p), j) >= 0 && b < Pow2(SlotBits(f, Pow2(p), j))
    ensures ComesBack(f, p, offset, j, b)
  {
    SlotShape(f, p);
    ShiftBounds(f, p);
    SlotRange(f, p, j);
    var k := Shift(f, Pow2(p));
    var i := j - WideSlots(f, Pow2(p));
    Pow2Quotient(p, k - 1);
    NarrowState(f, p, k, i, b);
    NarrowSlotIs(f, Pow2(p), j, i, k);
    NarrowEncode(f, Pow2(p), offset, SlotDelta(f, Pow2(p), j) + b, k, Pow2(p - k + 1));
  }

  /** Conversely, from every state a slot can lead to, encoding the symbol comes back to that very slot. */
  lemma DecodeThenEncode(f: nat, p: nat, offset: nat, j: nat, b: nat)
    requires 1 <= f <= Pow2(p) && j < f
    requires SlotBits(f, Pow2(p), j) >= 0 && b < Pow2(SlotBits(f, Pow2(p), j))
    ensures Shift(f, Pow2(p)) >= 0 && ComesBack(f, p, offset, j, b)
  {
    ShiftBounds(f, p);
    if j < WideSlots(f, Pow2(p)) {
      WideBack(f, p, offset, j, b);
    } else {
      NarrowBack(f, p, offset, j, b);
    }
  }

  /** State s lies in the interval slot j leads to. */
  predicate Covers(f: nat, nstates: nat, j: nat, s: nat) {
    SlotBits(f, nstates, j) >= 0 &&
    SlotDelta(f, nstates, j) <= s < SlotDelta(f, nstates, j) + Pow2(SlotBits(f, nstates, j))
  }

  /** The slots of one symbol tile the state space: every state is in the interval of exactly one of them. */
  lemma SlotsTile(f: nat, p: nat, s: nat) returns (j: nat)
    requires 1 <= f <= Pow2(p) && s < Pow2(p)
    ensures j < f && Covers(f, Pow2(p), j, s)
    ensures forall i: nat :: i < f && Covers(f, Pow2(p), i, s) ==> i == j
  {
    EncodeThenDecode(f, p, 0, s);
    j := EncodeStep(EncSlot(f, Pow2(p), 0), s).next;
    forall i: nat | i < f && Covers(f, Pow2(p), i, s)
      ensures i == j
    {
      DecodeThenEncode(f, p, 0, i, s - SlotDelta(f, Pow2(p), i));
    }
  }

  /** A slot x reads n bits and leads to the states above x * 2^n - 2^p. */
  ghost predicate ShiftedNumber(f: nat, p: nat, j: nat, n: nat) {
    && SlotBits(f, Pow2(p), j) == n && SlotDelta(f, Pow2(p), j) == (f + j) * Pow2(n) - Pow2(p)
    && Pow2(p) <= (f + j) * Pow2(n) < 2 * Pow2(p)
  }

  lemma WideNumber(f: nat, p: nat, j: nat, k: nat)
    requires 1 <= f <= Pow2(p) && j < f && k == Shift(f, Pow2(p)) <= p && j < WideSlots(f, Pow2(p))
    requires WideSlots(f, Pow2(p)) == 2 * Pow2(p - k) - f && Pow2(p - k) <= f
    ensures ShiftedNumber(f, p, j, k)
  {
    WideSlotIs(f, Pow2(p), j, f + j, k);
    ShlMul(f + j, k);
    Pow2Quotient(p, k);
    WideInterval(f + j, Pow2(p - k), Pow2(k));
  }

  lemma NarrowNumber(f: nat, p: nat, j: nat, k: nat, i: nat)
    requires 1 <= f <= Pow2(p) && j < f && 1 <= k == Shift(f, Pow2(p)) <= p
    requires WideSlots(f, Pow2(p)) == 2 * Pow2(p - k) - f && i == j - WideSlots(f, Pow2(p)) < 2 * Pow2(p - k)
    ensures ShiftedNumber(f, p, j, k - 1)
  {
    var q, kk := Pow2(p - k + 1), Pow2(k - 1);
    NarrowSlotIs(f, Pow2(p), j, i, k);
    ShlMul(i, k - 1);
    Pow2Quotient(p, k - 1);
    MulDistributes(q, i, kk);
    MulLeq(0, i, kk);
    MulUpper(i, q, kk);
  }

  /**
   * A symbol's slots are the numbers x = f, ..., 2 * f - 1, each shifted up until it has p + 1 bits: slot x reads as
   * many bits as that shift, and leads to the states above x * 2^bits - 2^p.
   */
  lemma SlotIsShiftedNumber(f: nat, p: nat, j: nat) returns (bits: nat)
    requires 1 <= f <= Pow2(p) && j < f
    ensures SlotBits(f, Pow2(p), j) == bits
    ensures SlotDelta(f, Pow2(p), j) == (f + j) * Pow2(bits) - Pow2(p)
    ensures Pow2(p) <= (f + j) * Pow2(bits) < 2 * Pow2(p)
  {
    SlotShape(f, p);
    ShiftBounds(f, p);
    var k, j0 := Shift(f, Pow2(p)), WideSlots(f, Pow2(p));
    if j < j0 {
      WideNumber(f, p, j, k);
      bits := k;
    } else {
      NarrowNumber(f, p, j, k, j - j0);
      bits := k - 1;
    }
  }

  // ---------------------------------------------------------------- whole tables

  function Sum(freqs: seq<nat>): nat {
    if freqs == [] then 0 else Sum(freqs[..|freqs| - 1]) + freqs[|freqs| - 1]
  }

  /** The first state of a symbol: symbols take consecutive runs of states in order. */
  function Offset(freqs: seq<nat>, sym: nat): nat
    requires sym <= |freqs|
  {
    Sum(freqs[..sym])
  }

  lemma OffsetStep(freqs: seq<nat>, sym: nat)
    requires sym < |freqs|
    ensures Offset(freqs, sym + 1) == Offset(freqs, sym) + freqs[sym]
  {
    assert freqs[..sym + 1][..sym] == freqs[..sym];
  }

  lemma {:induction false} OffsetMono(freqs: seq<nat>, a: nat, b: nat)
    requires a <= b <= |freqs|
    ensures Offset(freqs, a) <= Offset(freqs, b) <= Sum(freqs)
    decreases |freqs| - a
  {
    assert freqs[..|freqs|] == freqs;
    if b == |freqs| {
    } else {
      OffsetStep(freqs, b);
      OffsetMono(freqs, b + 1, |freqs|);
    }
    if a == b {
    } else {
      OffsetStep(freqs, a);
      OffsetMono(freqs, a + 1, b);
    }
  }

  lemma FreqAtMostSum(freqs: seq<nat>, sym: nat)
    requires sym < |freqs|
    ensures Offset(freqs, sym) + freqs[sym] <= Sum(freqs)
  {
    OffsetStep(freqs, sym);
    OffsetMono(freqs, sym + 1, |freqs|);
  }

  /** Which symbol a state belongs to, and which of its slots it is. */
  datatype Owner = Owner(sym: nat, j: nat)

  function OwnerOf(freqs: seq<nat>, state: nat): (o: Owner)
    requires state < Sum(freqs)
    ensures o.sym < |freqs| && o.j < freqs[o.sym]
    ensures state == Offset(freqs, o.sym) + o.j
  {
    var last := |freqs| - 1;
    if Sum(freqs[..last]) <= state then Owner(last, state - Sum(freqs[..last]))
    else
      var o := OwnerOf(freqs[..last], state);
      assert freqs[..last][..o.sym] == freqs[..o.sym];
      o
  }

  lemma OwnerUnique(freqs: seq<nat>, sym: nat, j: nat)
    requires sym < |freqs| && j < freqs[sym]
    ensures Offset(freqs, sym) + j < Sum(freqs)
    ensures OwnerOf(freqs, Offset(freqs, sym) + j) == Owner(sym, j)
  {
    FreqAtMostSum(freqs, sym);
    var o := OwnerOf(freqs, Offset(freqs, sym) + j);
    if o.sym < sym {
      OffsetStep(freqs, o.sym);
      OffsetMono(freqs, o.sym + 1, sym);
    } else if sym < o.sym {
      OffsetStep(freqs, sym);
      OffsetMono(freqs, sym + 1, o.sym);
    }
  }

  function DecSlot(freqs: seq<nat>, p: nat, o: Owner): DecEntry
    requires o.sym < |freqs| && o.j < freqs[o.sym] <= Pow2(p)
  {
    SlotRange(freqs[o.sym], p, o.j);
    DecEntry(SlotBits(freqs[o.sym], Pow2(p), o.j), o.sym, SlotDelta(freqs[o.sym], Pow2(p), o.j))
  }

  function ValueSlot(freqs: seq<nat>, p: nat, extra: seq<nat>, base: seq<int>, o: Owner): ValueEntry
    requires o.sym < |freqs| && o.j < freqs[o.sym] <= Pow2(p)
    requires |extra| == |base| == |freqs|
  {
    var e := DecSlot(freqs, p, o);
    ValueEntry(e.k + extra[o.sym], extra[o.sym], e.delta, base[o.sym])
  }

  lemma OwnedFrequencyFits(freqs: seq<nat>, i: nat)
    requires i < Sum(freqs)
    ensures freqs[OwnerOf(freqs, i).sym] <= Sum(freqs)
  {
    FreqAtMostSum(freqs, OwnerOf(freqs, i).sym);
  }

  /** The decoder table for freqs written over an old table: states past Sum(freqs) keep their old entries. */
  function DecTable(freqs: seq<nat>, p: nat, was: seq<DecEntry>): (t: seq<DecEntry>)
    requires Sum(freqs) <= Pow2(p)
    ensures |t| == |was|
  {
    seq(|was|, i requires 0 <= i < |was| =>
      if i < Sum(freqs) then OwnedFrequencyFits(freqs, i); DecSlot(freqs, p, OwnerOf(freqs, i)) else was[i])
  }

  function ValueTable(freqs: seq<nat>, p: nat, extra: seq<nat>, base: seq<int>, was: seq<ValueEntry>)
    : (t: seq<ValueEntry>)
    requires Sum(freqs) <= Pow2(p) && |extra| == |base| == |freqs|
    ensures |t| == |was|
  {
    seq(|was|, i requires 0 <= i < |was| =>
      if i < Sum(freqs) then OwnedFrequencyFits(freqs, i); ValueSlot(freqs, p, extra, base, OwnerOf(freqs, i))
      else was[i])
  }

  const ZERO_ENTRY := EncEntry(0, 0, 0, 0)

  function EncTable(freqs: seq<nat>, p: nat): (t: seq<EncEntry>)
    requires Sum(freqs) <= Pow2(p)
    ensures |t| == |freqs|
  {
    seq(|freqs|, i requires 0 <= i < |freqs| =>
      if freqs[i] == 0 then ZERO_ENTRY
      else
        FreqAtMostSum(freqs, i);
        ShiftBounds(freqs[i], p);
        EncSlot(freqs[i], Pow2(p), Offset(freqs, i)))
  }

  /** A table entry that keeps the decoder inside its table: every state it can lead to is below nstates. */
  predicate SafeEntry(e: DecEntry, p: nat) {
    0 <= e.k <= p && 0 <= e.delta && e.delta + Pow2(e.k) <= Pow2(p) && e.sym < 256
  }

  predicate SafeValueEntry(e: ValueEntry, p: nat, maxExtra: nat, maxValue: int) {
    && e.valueBits <= e.totalBits <= p + e.valueBits && e.valueBits <= maxExtra
    && 0 <= e.delta && e.delta + Pow2(e.totalBits - e.valueBits) <= Pow2(p)
    && 0 <= e.vbase && e.vbase + Pow2(e.valueBits) - 1 <= maxValue
  }

  /** Building a table keeps every entry safe, those left over from an earlier block included. */
  lemma DecTableSafe(freqs: seq<nat>, p: nat, was: seq<DecEntry>)
    requires Sum(freqs) <= Pow2(p) && |freqs| <= 256
    requires forall i :: 0 <= i < |was| ==> SafeEntry(was[i], p)
    ensures forall i :: 0 <= i < |was| ==> SafeEntry(DecTable(freqs, p, was)[i], p)
  {
    forall i | 0 <= i < |was|
      ensures SafeEntry(DecTable(freqs, p, was)[i], p)
    {
      if i < Sum(freqs) {
        OwnedFrequencyFits(freqs, i);
        var o := OwnerOf(freqs, i);
        SlotRange(freqs[o.sym], p, o.j);
      }
    }
  }

  lemma ValueSlotSafe(freqs: seq<nat>, p: nat, extra: seq<nat>, base: seq<int>, o: Owner, maxExtra: nat, maxValue: int)
    requires o.sym < |freqs| && o.j < freqs[o.sym] <= Pow2(p) && |extra| == |base| == |freqs|
    requires 0 <= base[o.sym] && extra[o.sym] <= maxExtra && base[o.sym] + Pow2(extra[o.sym]) - 1 <= maxValue
    ensures SafeValueEntry(ValueSlot(freqs, p, extra, base, o), p, maxExtra, maxValue)
  {
    SlotRange(freqs[o.sym], p, o.j);
  }

  lemma ValueTableSafe(freqs: seq<nat>, p: nat, extra: seq<nat>, base: seq<int>, was: seq<ValueEntry>,
                       maxExtra: nat, maxValue: int)
    requires Sum(freqs) <= Pow2(p) && |extra| == |base| == |freqs|
    requires forall i :: 0 <= i < |extra| ==>
      0 <= base[i] && extra[i] <= maxExtra && base[i] + Pow2(extra[i]) - 1 <= maxValue
    requires forall i :: 0 <= i < |was| ==> SafeValueEntry(was[i], p, maxExtra, maxValue)
    ensures forall i :: 0 <= i < |was| ==>
      SafeValueEntry(ValueTable(freqs, p, extra, base, was)[i], p, maxExtra, maxValue)
  {
    forall i | 0 <= i < |was|
      ensures SafeValueEntry(ValueTable(freqs, p, extra, base, was)[i], p, maxExtra, maxValue)
    {
      if i < Sum(freqs) {
        OwnedFrequencyFits(freqs, i);
        ValueSlotSafe(freqs, p, extra, base, OwnerOf(freqs, i), maxExtra, maxValue);
      }
    }
  }

  /** A symbol that can be encoded. */
  predicate Encodable(freqs: seq<nat>, p: nat, sym: nat) {
    Sum(freqs) <= Pow2(p) && sym < |freqs| && freqs[sym] > 0
  }

  function StepOf(freqs: seq<nat>, p: nat, sym: nat, s: nat): (r: EncStep)
    requires Encodable(freqs, p, sym) && s < Pow2(p)
    ensures 0 <= r.next < Sum(freqs) && r.b < Pow2(r.nbits) && r.nbits <= p
  {
    FreqAtMostSum(freqs, sym);
    var f, offset := freqs[sym], Offset(freqs, sym);
    EncodeThenDecode(f, p, offset, s);
    ShiftBounds(f, p);
    SlotRange(f, p, EncodeStep(EncSlot(f, Pow2(p), offset), s).next - offset);
    EncodeStep(EncSlot(f, Pow2(p), offset), s)
  }

  /** One encoder step through the whole table, undone by the whole decoder table. */
  lemma StepInverts(freqs: seq<nat>, p: nat, sym: nat, s: nat, was: seq<DecEntry>)
    requires Encodable(freqs, p, sym) && s < Pow2(p) && |was| == Pow2(p)
    ensures var r := StepOf(freqs, p, sym, s);
            var e := DecTable(freqs, p, was)[r.next];
            e.k == r.nbits && e.sym == sym && e.delta + r.b == s
  {
    FreqAtMostSum(freqs, sym);
    var offset := Offset(freqs, sym);
    EncodeThenDecode(freqs[sym], p, offset, s);
    OwnerUnique(freqs, sym, StepOf(freqs, p, sym, s).next - offset);
  }

  lemma ValueStepInverts(freqs: seq<nat>, p: nat, extra: seq<nat>, base: seq<int>, sym: nat, s: nat,
                         was: seq<ValueEntry>)
    requires Encodable(freqs, p, sym) && s < Pow2(p) && |was| == Pow2(p)
    requires |extra| == |base| == |freqs|
    ensures var r := StepOf(freqs, p, sym, s);
            var e := ValueTable(freqs, p, extra, base, was)[r.next];
            e == ValueEntry(r.nbits + extra[sym], extra[sym], s - r.b, base[sym])
  {
    FreqAtMostSum(freqs, sym);
    var offset := Offset(freqs, sym);
    EncodeThenDecode(freqs[sym], p, offset, s);
    OwnerUnique(freqs, sym, StepOf(freqs, p, sym, s).next - offset);
  }

  /** With at most 2^14 states every encoder entry fits the int16 fields the code stores it in. */
  lemma EncoderEntriesFitInt16(freqs: seq<nat>, p: nat, sym: nat)
    requires Encodable(freqs, p, sym) && p <= 14
    ensures var e := EncTable(freqs, p)[sym];
            && 0 <= e.k <= 14
            && -0x8000 <= e.s0 < 0x8000 && -0x8000 <= e.delta0 < 0x8000 && -0x8000 <= e.delta1 < 0x8000
  {
    Pow2Values();
    Pow2Mono(p, 14);
    FreqAtMostSum(freqs, sym);
    var f := freqs[sym];
    SlotShape(f, p);
    ShiftBounds(f, p);
    var k := Shift(f, Pow2(p));
    Pow2Quotient(p, k);
    ShlMul(f, k);
    if k > 0 { Pow2Quotient(p, k - 1); }
    MulLeq(f, 2 * Pow2(p - k), Pow2(k));
    MulLeq(Pow2(p - k), f, Pow2(k));
    MulAssoc(2, Pow2(p - k), Pow2(k));
  }

  // ---------------------------------------------------------------- the loops that build them

  /** e is the entry decoder state i must have. */
  ghost predicate DecEntryIs(freqs: seq<nat>, p: nat, i: nat, e: DecEntry) {
    && i < Sum(freqs) && freqs[OwnerOf(freqs, i).sym] <= Pow2(p)
    && e == DecSlot(freqs, p, OwnerOf(freqs, i))
  }

  ghost predicate ValueEntryIs(freqs: seq<nat>, p: nat, extra: seq<nat>, base: seq<int>, i: nat, e: ValueEntry)
    requires |extra| == |base| == |freqs|
  {
    && i < Sum(freqs) && freqs[OwnerOf(freqs, i).sym] <= Pow2(p)
    && e == ValueSlot(freqs, p, extra, base, OwnerOf(freqs, i))
  }

  /** The same, as facts to pass around. */
  ghost predicate IsDecEntry(freqs: seq<nat>, p: nat, i: nat, e: DecEntry) {
    forall x: DecEntry :: x == e ==> DecEntryIs(freqs, p, i, x)
  }

  ghost predicate IsValueEntry(freqs: seq<nat>, p: nat, extra: seq<nat>, base: seq<int>, i: nat, e: ValueEntry)
    requires |extra| == |base| == |freqs|
  {
    forall x: ValueEntry :: x == e ==> ValueEntryIs(freqs, p, extra, base, i, x)
  }

  lemma TableFilled(freqs: seq<nat>, p: nat, was: seq<DecEntry>, t: seq<DecEntry>)
    requires Sum(freqs) <= Pow2(p) == |was| && |t| == |was|
    requires forall i :: 0 <= i < Sum(freqs) ==> IsDecEntry(freqs, p, i, t[i])
    requires forall i :: Sum(freqs) <= i < |t| ==> t[i] == was[i]
    ensures t == DecTable(freqs, p, was)
  {
    forall i | 0 <= i < |t|
      ensures t[i] == DecTable(freqs, p, was)[i]
    {
      if i < Sum(freqs) { assert DecEntryIs(freqs, p, i, t[i]); }
    }
  }

  lemma ValueTableFilled(freqs: seq<nat>, p: nat, extra: seq<nat>, base: seq<int>, was: seq<ValueEntry>,
                         t: seq<ValueEntry>)
    requires Sum(freqs) <= Pow2(p) == |was| && |t| == |was| && |extra| == |base| == |freqs|
    requires forall i :: 0 <= i < Sum(freqs) ==> IsValueEntry(freqs, p, extra, base, i, t[i])
    requires forall i :: Sum(freqs) <= i < |t| ==> t[i] == was[i]
    ensures t == ValueTable(freqs, p, extra, base, was)
  {
    forall i | 0 <= i < |t|
      ensures t[i] == ValueTable(freqs, p, extra, base, was)[i]
    {
      if i < Sum(freqs) { assert ValueEntryIs(freqs, p, extra, base, i, t[i]); }
    }
  }

  lemma WrittenEntry(freqs: seq<nat>, p: nat, sym: nat, j: nat, k: int, delta: int)
    requires sym < |freqs| && j < freqs[sym] <= Pow2(p)
    requires k == SlotBits(freqs[sym], Pow2(p), j) && (k >= 0 ==> delta == SlotDelta(freqs[sym], Pow2(p), j))
    ensures IsDecEntry(freqs, p, Offset(freqs, sym) + j, DecEntry(k, sym, delta))
  {
    OwnerUnique(freqs, sym, j);
    SlotRange(freqs[sym], p, j);
  }

  lemma WrittenValueEntry(freqs: seq<nat>, p: nat, extra: seq<nat>, base: seq<int>, sym: nat, j: nat,
                          k: int, delta: int)
    requires |extra| == |base| == |freqs|
    requires sym < |freqs| && j < freqs[sym] <= Pow2(p)
    requires k == SlotBits(freqs[sym], Pow2(p), j) && (k >= 0 ==> delta == SlotDelta(freqs[sym], Pow2(p), j))
    ensures IsValueEntry(freqs, p, extra, base, Offset(freqs, sym) + j,
                         ValueEntry(k + extra[sym], extra[sym], delta, base[sym]))
  {
    OwnerUnique(freqs, sym, j);
    SlotRange(freqs[sym], p, j);
  }

  /** Slot j of a symbol. */
  method SlotEntry(freqs: seq<nat>, nstates: nat, sym: nat, j: nat, k: int, j0: int, ghost p: nat)
    returns (e: DecEntry)
    requires nstates == Pow2(p) && sym < |freqs| && j < freqs[sym] <= nstates
    requires k == Shift(freqs[sym], nstates) && j0 == WideSlots(freqs[sym], nstates)
    ensures IsDecEntry(freqs, p, Offset(freqs, sym) + j, e)
  {
    SlotRange(freqs[sym], p, j);
    var ek, delta;
    if j < j0 {
      ek := k;
      delta := Shl(freqs[sym] + j, k) - nstates;
    } else {
      ek := k - 1;
      delta := Shl(j - j0, k - 1);
    }
    WrittenEntry(freqs, p, sym, j, ek, delta);
    e := DecEntry(ek, sym, delta);
  }

  /** The inner loop: the slots of one symbol. */
  method FillSymbol(freqs: seq<nat>, nstates: nat, sym: nat, offset: nat, k: int, j0: int,
                    table: array<DecEntry>, ghost p: nat)
    requires nstates == Pow2(p) && sym < |freqs| && 1 <= freqs[sym] && offset == Offset(freqs, sym)
    requires offset + freqs[sym] <= nstates == table.Length
    requires k == Shift(freqs[sym], nstates) && j0 == WideSlots(freqs[sym], nstates)
    modifies table
    ensures forall i :: offset <= i < offset + freqs[sym] ==> IsDecEntry(freqs, p, i, table[i])
    ensures forall i :: 0 <= i < nstates && !(offset <= i < offset + freqs[sym]) ==> table[i] == old(table[i])
  {
    for j := 0 to freqs[sym]
      invariant forall i :: offset <= i < offset + j ==> IsDecEntry(freqs, p, i, table[i])
      invariant forall i :: 0 <= i < nstates && !(offset <= i < offset + j) ==> table[i] == old(table[i])
    {
      var e := SlotEntry(freqs, nstates, sym, j, k, j0, p);
      table[offset + j] := e;
    }
  }

  method InitDecoderTable(freqs: seq<nat>, nstates: nat, table: array<DecEntry>, ghost p: nat)
    returns (ok: bool)
    requires nstates == Pow2(p) && table.Length == nstates
    modifies table
    ensures ok <==> Sum(freqs) <= nstates
    ensures ok ==> table[..] == DecTable(freqs, p, old(table[..]))
  {
    var nClz := Clz32(nstates);
    var offset := 0;
    for sym := 0 to |freqs|
      invariant offset == Offset(freqs, sym) <= nstates
      invariant forall i :: 0 <= i < offset ==> IsDecEntry(freqs, p, i, table[i])
      invariant forall i :: offset <= i < nstates ==> table[i] == old(table[i])
    {
      var fi := freqs[sym];
      OffsetStep(freqs, sym);
      OffsetMono(freqs, sym + 1, |freqs|);
      if fi == 0 { continue; }
      if offset + fi > nstates { return false; }
      var k := Clz32(fi) - nClz;
      var j0 := ShrInt(2 * nstates, k) - fi;
      FillSymbol(freqs, nstates, sym, offset, k, j0, table, p);
      offset := offset + fi;
    }
    assert freqs[..|freqs|] == freqs;
    TableFilled(freqs, p, old(table[..]), table[..]);
    return true;
  }

  /** Slot j of a symbol, with the symbol's extra bits and base. */
  method ValueSlotEntry(freqs: seq<nat>, nstates: nat, extra: seq<nat>, base: seq<int>, sym: nat, j: nat,
                        k: int, j0: int, ghost p: nat)
    returns (e: ValueEntry)
    requires |extra| == |base| == |freqs|
    requires nstates == Pow2(p) && sym < |freqs| && j < freqs[sym] <= nstates
    requires k == Shift(freqs[sym], nstates) && j0 == WideSlots(freqs[sym], nstates)
    ensures IsValueEntry(freqs, p, extra, base, Offset(freqs, sym) + j, e)
  {
    SlotRange(freqs[sym], p, j);
    var vb := extra[sym];
    var tb, delta;
    if j < j0 {
      tb := k + vb;
      delta := Shl(freqs[sym] + j, k) - nstates;
    } else {
      tb := k - 1 + vb;
      delta := Shl(j - j0, k - 1);
    }
    WrittenValueEntry(freqs, p, extra, base, sym, j, tb - vb, delta);
    e := ValueEntry(tb, vb, delta, base[sym]);
  }

  method FillValueSymbol(freqs: seq<nat>, nstates: nat, extra: seq<nat>, base: seq<int>, sym: nat, offset: nat,
                         k: int, j0: int, table: array<ValueEntry>, ghost p: nat)
    requires |extra| == |base| == |freqs|
    requires nstates == Pow2(p) && sym < |freqs| && 1 <= freqs[sym] && offset == Offset(freqs, sym)
    requires offset + freqs[sym] <= nstates == table.Length
    requires k == Shift(freqs[sym], nstates) && j0 == WideSlots(freqs[sym], nstates)
    modifies table
    ensures forall i :: offset <= i < offset + freqs[sym] ==> IsValueEntry(freqs, p, extra, base, i, table[i])
    ensures forall i :: 0 <= i < nstates && !(offset <= i < offset + freqs[sym]) ==> table[i] == old(table[i])
  {
    for j := 0 to freqs[sym]
      invariant forall i :: offset <= i < offset + j ==> IsValueEntry(freqs, p, extra, base, i, table[i])
      invariant forall i :: 0 <= i < nstates && !(offset <= i < offset + j) ==> table[i] == old(table[i])
    {
      var e := ValueSlotEntry(freqs, nstates, extra, base, sym, j, k, j0, p);
      table[offset + j] := e;
    }
  }

  method InitValueDecoderTable(freqs: seq<nat>, nstates: nat, extra: seq<nat>, base: seq<int>,
                               table: array<ValueEntry>, ghost p: nat)
    returns (ok: bool)
    requires nstates == Pow2(p) && table.Length == nstates && |extra| == |base| == |freqs|
    modifies table
    ensures ok <==> Sum(freqs) <= nstates
    ensures ok ==> table[..] == ValueTable(freqs, p, extra, base, old(table[..]))
  {
    var nClz := Clz32(nstates);
    var offset := 0;
    for sym := 0 to |freqs|
      invariant offset == Offset(freqs, sym) <= nstates
      invariant forall i :: 0 <= i < offset ==> IsValueEntry(freqs, p, extra, base, i, table[i])
      invariant forall i :: offset <= i < nstates ==> table[i] == old(table[i])
    {
      var fi := freqs[sym];
      OffsetStep(freqs, sym);
      OffsetMono(freqs, sym + 1, |freqs|);
      if fi == 0 { continue; }
      if offset + fi > nstates { return false; }
      var k := Clz32(fi) - nClz;
      var j0 := ShrInt(2 * nstates, k) - fi;
      FillValueSymbol(freqs, nstates, extra, base, sym, offset, k, j0, table, p);
      offset := offset + fi;
    }
    assert freqs[..|freqs|] == freqs;
    ValueTableFilled(freqs, p, extra, base, old(table[..]), table[..]);
    return true;
  }

  method InitEncoderTable(freqs: seq<nat>, nstates: nat, ghost p: nat) returns (table: array<EncEntry>)
    requires nstates == Pow2(p) && Sum(freqs) <= nstates
    ensures fresh(table) && table[..] == EncTable(freqs, p)
  {
    table := new EncEntry[|freqs|](_ => ZERO_ENTRY);
    var nClz := Clz32(nstates);
    var offset := 0;
    for i := 0 to |freqs|
      invariant offset == Offset(freqs, i)
      invariant forall m :: 0 <= m < i ==> table[m] == EncTable(freqs, p)[m]
      invariant forall m :: i <= m < |freqs| ==> table[m] == ZERO_ENTRY
    {
      var fi := freqs[i];
      OffsetStep(freqs, i);
      if fi == 0 { continue; }
      FreqAtMostSum(freqs, i);
      ShiftBounds(fi, p);
      var k := Clz32(fi) - nClz;
      table[i] := EncEntry(Shl(fi, k) - nstates, k,
                           offset - fi + ShrInt(nstates, k), offset - fi + ShrInt(nstates, k - 1));
      offset := offset + fi;
    }
  }
}
