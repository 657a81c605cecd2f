/** The prefix code of the V2 header's frequency tables, and its bit stream. */
module FreqCode {
  import opened Bits
  import opened FseStream

  /** Code length and value looked up by the next five bits; -1 marks the two long codes. */
  const FREQ_NBITS: seq<nat> := [
    2, 3, 2, 5, 2, 3, 2, 8, 2, 3, 2, 5, 2, 3, 2, 14,
    2, 3, 2, 5, 2, 3, 2, 8, 2, 3, 2, 5, 2, 3, 2, 14]
  const FREQ_VALUE: seq<int> := [
    0, 2, 1, 4, 0, 3, 1, -1, 0, 2, 1, 5, 0, 3, 1, -1,
    0, 2, 1, 6, 0, 3, 1, -1, 0, 2, 1, 7, 0, 3, 1, -1]

  const MAX_FREQ := 1047

  /** A code word of n bits. */
  datatype Code = Code(n: nat, bits: nat)

  function EncodeFreqValue(v: nat): Code {
    if v == 0 then Code(2, 0)
    else if v == 1 then Code(2, 2)
    else if v == 2 then Code(3, 1)
    else if v == 3 then Code(3, 5)
    else if v <= 7 then Code(5, (v - 4) * 8 + 3)
    else if v <= 23 then Code(8, (v - 8) * 16 + 7)
    else Code(14, (v - 24) * 16 + 15)
  }

  function CodeBits(v: nat): seq<bool> {
    ToBits(EncodeFreqValue(v).n, EncodeFreqValue(v).bits)
  }

  /** The next n bits as a number, zeros past the end. */
  function Peek(bits: seq<bool>, n: nat): nat {
    if n == 0 || bits == [] then 0 else (if bits[0] then 1 else 0) + 2 * Peek(bits[1..], n - 1)
  }

  lemma {:induction false} PeekBound(bits: seq<bool>, n: nat)
    ensures Peek(bits, n) < Pow2(n)
  {
    if n == 0 || bits == [] {
    } else {
      PeekBound(bits[1..], n - 1);
    }
  }

  /** The value of a code whose first five bits are lo5 and whose n bits are code. */
  function ValueOf(lo5: nat, code: nat): nat
    requires lo5 < 32
  {
    if FREQ_NBITS[lo5] == 8 then 8 + Low(Shr(code, 4), 4)
    else if FREQ_NBITS[lo5] == 14 then 24 + Low(Shr(code, 4), 10)
    else if FREQ_VALUE[lo5] >= 0 then FREQ_VALUE[lo5]
    else 0
  }

  lemma PeekFive(bits: seq<bool>)
    ensures Peek(bits, 5) < 32
  {
    PeekBound(bits, 5);
    assert Pow2(5) == 32;
  }

  lemma CodeLength(lo5: nat)
    requires lo5 < 32
    ensures 2 <= FREQ_NBITS[lo5] <= 14
  {
  }

  /** One decoded value and the bits after it; None is a truncated code. */
  datatype Read = Read(value: nat, rest: seq<bool>)

  function ReadFreq(bits: seq<bool>): (r: Option<Read>)
    ensures r.Some? ==> |r.value.rest| < |bits|
  {
    PeekFive(bits);
    var lo5 := Peek(bits, 5);
    CodeLength(lo5);
    var n := FREQ_NBITS[lo5];
    if n > |bits| then None else Some(Read(ValueOf(lo5, Peek(bits, n)), bits[n..]))
  }

  datatype ReadAll = ReadAll(values: seq<nat>, rest: seq<bool>)

  /** n values in a row. */
  function ReadFreqs(bits: seq<bool>, n: nat): (r: Option<ReadAll>)
    ensures r.Some? ==> |r.value.values| == n
    decreases n
  {
    if n == 0 then Some(ReadAll([], bits))
    else
      var first := ReadFreq(bits);
      if first.None? then None
      else
        var later := ReadFreqs(first.value.rest, n - 1);
        if later.None? then None
        else Some(ReadAll([first.value.value] + later.value.values, later.value.rest))
  }

  /** The decoder's verdict on a whole table area: it must end inside its last byte. */
  function DecodeFreqs(data: seq<byte>, n: nat): (r: Option<seq<nat>>)
    ensures r.Some? ==> |r.value| == n
  {
    var r := ReadFreqs(BytesToBits(data), n);
    if r.None? || |r.value.rest| >= 8 then None else Some(r.value.values)
  }

  function CodesBits(vs: seq<nat>): seq<bool> {
    if vs == [] then [] else CodeBits(vs[0]) + CodesBits(vs[1..])
  }

  // ---------------------------------------------------------------- prefix freeness

  /** Peeking n bits at a word of m bits followed by anything. */
  lemma {:induction false} PeekWord(m: nat, v: nat, rest: seq<bool>, n: nat)
    requires v < Pow2(m)
    ensures n >= m ==> Peek(ToBits(m, v) + rest, n) == v + Shl(Peek(rest, n - m), m)
    ensures n <= m ==> Peek(ToBits(m, v) + rest, n) == Low(v, n)
  {
    var bits := ToBits(m, v) + rest;
    if m == 0 {
      assert bits == rest;
    } else if n > 0 {
      assert bits[1..] == ToBits(m - 1, v / 2) + rest;
      PeekWord(m - 1, v / 2, rest, n - 1);
    }
  }

  /** Five bits select the length and value of a short code word. */
  predicate Selects(lo5: nat, n: nat, v: nat) {
    lo5 < 32 && FREQ_NBITS[lo5] == n && FREQ_VALUE[lo5] == v
  }

  lemma TwoBitRows(k: nat)
    requires k < 8
    ensures Selects(4 * k, 2, 0) && Selects(4 * k + 2, 2, 1)
  {
    if k < 4 {
      assert k == 0 || k == 1 || k == 2 || k == 3;
    } else {
      assert k == 4 || k == 5 || k == 6 || k == 7;
    }
  }

  lemma ThreeBitRows(k: nat)
    requires k < 4
    ensures Selects(8 * k + 1, 3, 2) && Selects(8 * k + 5, 3, 3)
  {
    assert k == 0 || k == 1 || k == 2 || k == 3;
  }

  lemma FiveBitRows(v: nat)
    requires 4 <= v <= 7
    ensures Selects((v - 4) * 8 + 3, 5, v)
  {
    assert v == 4 || v == 5 || v == 6 || v == 7;
  }

  lemma SmallShifts(k: nat)
    ensures Shl(k, 2) == 4 * k && Shl(k, 3) == 8 * k && Shl(k, 5) == 32 * k
    ensures Pow2(0) == 1 && Pow2(2) == 4 && Pow2(3) == 8 && Pow2(5) == 32
  {
    assert Shl(k, 1) == 2 * k && Shl(k, 3) == 8 * k;
    assert Pow2(1) == 2 && Pow2(3) == 8;
  }

  lemma TwoBitCodes(v: nat, k: nat, lo5: nat)
    requires v <= 1 && k < 8 && lo5 == EncodeFreqValue(v).bits + 4 * k
    ensures Selects(lo5, 2, v)
  {
    TwoBitRows(k);
  }

  lemma ThreeBitCodes(v: nat, k: nat, lo5: nat)
    requires 2 <= v <= 3 && k < 4 && lo5 == EncodeFreqValue(v).bits + 8 * k
    ensures Selects(lo5, 3, v)
  {
    ThreeBitRows(k);
  }

  /** Every five bits that begin with a short code word select that word. */
  lemma ShortCodes(v: nat, k: nat, lo5: nat)
    requires v <= 7 && k < Pow2(5 - EncodeFreqValue(v).n)
    requires lo5 == EncodeFreqValue(v).bits + Shl(k, EncodeFreqValue(v).n)
    ensures EncodeFreqValue(v).bits < Pow2(EncodeFreqValue(v).n) && Selects(lo5, EncodeFreqValue(v).n, v)
  {
    SmallShifts(k);
    if v <= 1 {
      TwoBitCodes(v, k, lo5);
    } else if v <= 3 {
      ThreeBitCodes(v, k, lo5);
    } else {
      FiveBitRows(v);
    }
  }

  lemma LongCodes(v: nat)
    requires 8 <= v <= MAX_FREQ
    ensures var c := EncodeFreqValue(v);
            && c.bits < Pow2(c.n) && Low(c.bits, 5) < 32 && FREQ_NBITS[Low(c.bits, 5)] == c.n
            && ValueOf(Low(c.bits, 5), c.bits) == v
  {
    Pow2Values();
    var c := EncodeFreqValue(v);
    var w: nat := if v <= 23 then v - 8 else v - 24;
    var low: nat := if v <= 23 then 7 else 15;
    assert Low(c.bits, 5) == low + 16 * (w % 2) by {
      ShrLowUnique(c.bits, 5, w / 2, low + 16 * (w % 2));
    }
    assert Shr(c.bits, 4) == w by { ShrLowUnique(c.bits, 4, w, low); }
    if v <= 23 { ShrLowUnique(w, 4, 0, w); } else { ShrLowUnique(w, 10, 0, w); }
  }

  lemma ReadWord(bits: seq<bool>, lo5: nat, n: nat, value: nat)
    requires Peek(bits, 5) == lo5 < 32 && FREQ_NBITS[lo5] == n <= |bits| && ValueOf(lo5, Peek(bits, n)) == value
    ensures ReadFreq(bits) == Some(Read(value, bits[n..]))
  {
  }

  lemma ShortPeek(v: nat, c: Code, rest: seq<bool>) returns (lo5: nat)
    requires v <= 7 && c == EncodeFreqValue(v)
    ensures Peek(ToBits(c.n, c.bits) + rest, 5) == lo5 && Selects(lo5, c.n, v)
  {
    var k := Peek(rest, 5 - c.n);
    lo5 := c.bits + Shl(k, c.n);
    PeekBound(rest, 5 - c.n);
    ShortCodes(v, k, lo5);
    PeekWord(c.n, c.bits, rest, 5);
  }

  lemma ShortReadsBack(v: nat, c: Code, rest: seq<bool>)
    requires v <= 7 && c == EncodeFreqValue(v)
    ensures ReadFreq(ToBits(c.n, c.bits) + rest) == Some(Read(v, rest))
  {
    var lo5 := ShortPeek(v, c, rest);
    ReadWord(ToBits(c.n, c.bits) + rest, lo5, c.n, v);
    WordDropped(c, rest);
  }

  lemma LongReadsBack(v: nat, c: Code, rest: seq<bool>)
    requires 8 <= v <= MAX_FREQ && c == EncodeFreqValue(v)
    ensures ReadFreq(ToBits(c.n, c.bits) + rest) == Some(Read(v, rest))
  {
    LongCodes(v);
    PeekWord(c.n, c.bits, rest, 5);
    PeekWord(c.n, c.bits, rest, c.n);
    ShrLowUnique(c.bits, c.n, 0, c.bits);
    ReadWord(ToBits(c.n, c.bits) + rest, Low(c.bits, 5), c.n, v);
    WordDropped(c, rest);
  }

  /** A word of n more bits above three low bits. */
  lemma AboveThree(n: nat, high: nat, low: nat)
    requires low < 8
    ensures ToBits(3 + n, high * 8 + low) == ToBits(3, low) + ToBits(n, high)
  {
    Pow2Values();
    ToBitsConcat(3, low, n, high);
  }

  lemma AboveFour(n: nat, high: nat, low: nat)
    requires low < 16
    ensures ToBits(4 + n, high * 16 + low) == ToBits(4, low) + ToBits(n, high)
  {
    Pow2Values();
    ToBitsConcat(4, low, n, high);
  }

  lemma LowWords()
    ensures ToBits(2, 0) == [false, false] && ToBits(2, 2) == [false, true]
    ensures ToBits(3, 1) == [true, false, false] && ToBits(3, 5) == [true, false, true]
    ensures ToBits(3, 3) == [true, true, false]
    ensures ToBits(4, 7) == [true, true, true, false] && ToBits(4, 15) == [true, true, true, true]
  {
    assert ToBits(1, 0) == [false] && ToBits(1, 1) == [true];
    assert ToBits(2, 1) == [true, false] && ToBits(2, 3) == [true, true];
    assert ToBits(3, 7) == [true, true, true];
  }

  /** The code words, first bit first: the frequencies 0 to 3 on their own, then ranges of 4, 16 and 1024. */
  lemma CodeWords(v: nat)
    requires v <= 1047
    ensures CodeBits(v)
            == if v == 0 then [false, false] else if v == 1 then [false, true]
               else if v == 2 then [true, false, false] else if v == 3 then [true, false, true]
               else if v < 8 then [true, true, false] + ToBits(2, v - 4)
               else if v < 24 then [true, true, true, false] + ToBits(4, v - 8)
               else [true, true, true, true] + ToBits(10, v - 24)
  {
    LowWords();
    if 4 <= v < 8 {
      AboveThree(2, v - 4, 3);
    } else if v >= 8 {
      LongWords(v);
    }
  }

  lemma LongWords(v: nat)
    requires 8 <= v <= 1047
    ensures CodeBits(v) == if v < 24 then [true, true, true, false] + ToBits(4, v - 8)
                           else [true, true, true, true] + ToBits(10, v - 24)
  {
    LowWords();
    if v < 24 {
      AboveFour(4, v - 8, 7);
    } else {
      AboveFour(10, v - 24, 15);
    }
  }

  /**
   * The code is prefix-free even when the decoder peeks past the end: whatever follows a code word, nothing
   * included, the decoder takes exactly that word and its value.
   */
  lemma ReadsBack(v: nat, rest: seq<bool>)
    requires v <= MAX_FREQ
    ensures ReadFreq(CodeBits(v) + rest) == Some(Read(v, rest))
  {
    if v <= 7 {
      ShortReadsBack(v, EncodeFreqValue(v), rest);
    } else {
      LongReadsBack(v, EncodeFreqValue(v), rest);
    }
  }

  lemma WordDropped(c: Code, rest: seq<bool>)
    ensures (ToBits(c.n, c.bits) + rest)[c.n..] == rest
  {
  }

  lemma ReadFreqsStep(bits: seq<bool>, n: nat, v: nat, later: seq<nat>, mid: seq<bool>, rest: seq<bool>)
    requires n > 0 && ReadFreq(bits) == Some(Read(v, mid)) && ReadFreqs(mid, n - 1) == Some(ReadAll(later, rest))
    ensures ReadFreqs(bits, n) == Some(ReadAll([v] + later, rest))
  {
  }

  lemma CodesBitsStep(v: nat, later: seq<nat>)
    ensures CodesBits([v] + later) == CodeBits(v) + CodesBits(later)
  {
    assert ([v] + later)[1..] == later;
  }

  lemma TableStep(v: nat, later: seq<nat>, codes: seq<bool>, rest: seq<bool>)
    requires v <= MAX_FREQ && ReadFreqs(codes + rest, |later|) == Some(ReadAll(later, rest))
    ensures ReadFreqs(CodeBits(v) + codes + rest, 1 + |later|) == Some(ReadAll([v] + later, rest))
  {
    SeqAssoc(CodeBits(v), codes, rest);
    ReadsBack(v, codes + rest);
    ReadFreqsStep(CodeBits(v) + (codes + rest), 1 + |later|, v, later, codes + rest, rest);
  }

  /** A whole table reads back, leaving what follows it. */
  lemma {:induction false} TableReadsBack(vs: seq<nat>, rest: seq<bool>)
    requires forall v <- vs :: v <= MAX_FREQ
    ensures ReadFreqs(CodesBits(vs) + rest, |vs|) == Some(ReadAll(vs, rest))
  {
    if vs == [] {
      assert [] + rest == rest;
    } else {
      var v, later := vs[0], vs[1..];
      assert v in vs && forall x <- later :: x in vs;
      assert vs == [v] + later;
      TableReadsBack(later, rest);
      CodesBitsStep(v, later);
      TableStep(v, later, CodesBits(later), rest);
    }
  }

  /** Whatever the bits, a decoded value is one the encoder can write. */
  lemma ReadFreqBound(bits: seq<bool>)
    ensures ReadFreq(bits).Some? ==> ReadFreq(bits).value.value <= MAX_FREQ
  {
    Pow2Values();
    var r := ReadFreq(bits);
    if r.Some? {
      PeekBound(bits, 5);
      var lo5 := Peek(bits, 5);
      var code := Peek(bits, FREQ_NBITS[lo5]);
      ShrLow(Shr(code, 4), 4);
      ShrLow(Shr(code, 4), 10);
    }
  }

  // ---------------------------------------------------------------- the encoder's loop

  lemma {:induction false} CodesAppend(vs: seq<nat>, v: nat)
    ensures CodesBits(vs + [v]) == CodesBits(vs) + CodeBits(v)
  {
    if vs == [] {
      assert [v][1..] == [];
      assert CodesBits([v]) == CodeBits(v) + [];
    } else {
      assert (vs + [v])[1..] == vs[1..] + [v];
      CodesAppend(vs[1..], v);
      SeqAssoc(CodeBits(vs[0]), CodesBits(vs[1..]), CodeBits(v));
    }
  }

  /** The bits written are the codes of these values. */
  ghost predicate Wrote(bits: seq<bool>, vs: seq<nat>) {
    forall x: seq<nat> :: x == vs ==> bits == CodesBits(x)
  }

  /** Writes one value. */
  method PushFreq(out: OutStream, v: nat, ghost before: seq<nat>)
    requires out.Valid() && out.accumNBits < 8 && Wrote(out.Bits(), before)
    modifies out
    ensures out.Valid() && out.accumNBits < 8 && Wrote(out.Bits(), before + [v])
  {
    assert out.Bits() == CodesBits(before);
    var c := EncodeFreqValue(v);
    out.Push(c.n, c.bits);
    out.Flush();
    CodesAppend(before, v);
  }

  /** Writes one table. */
  method PushTable(out: OutStream, freqs: seq<nat>, ghost before: seq<nat>)
    requires out.Valid() && out.accumNBits < 8 && Wrote(out.Bits(), before)
    modifies out
    ensures out.Valid() && out.accumNBits < 8 && Wrote(out.Bits(), before + freqs)
  {
    assert before + freqs[..0] == before;
    for i := 0 to |freqs|
      invariant out.Valid() && out.accumNBits < 8 && Wrote(out.Bits(), before + freqs[..i])
    {
      PushFreq(out, freqs[i], before + freqs[..i]);
      assert before + freqs[..i + 1] == before + freqs[..i] + [freqs[i]];
    }
    assert freqs[..|freqs|] == freqs;
  }

  /** Code words and what follows them decode exactly when less than a byte follows. */
  lemma {:induction false} EndsInLastByte(vs: seq<nat>, data: seq<byte>, after: seq<bool>)
    requires (forall v <- vs :: v <= MAX_FREQ) && BytesToBits(data) == CodesBits(vs) + after
    ensures DecodeFreqs(data, |vs|) == if |after| < 8 then Some(vs) else None
  {
    TableReadsBack(vs, after);
  }

  /** The four tables one after the other, padded to a whole byte; they decode to themselves. */
  method EncodeV2FreqTableBitstream(l: seq<nat>, m: seq<nat>, d: seq<nat>, lit: seq<nat>) returns (data: seq<byte>)
    requires forall v <- l + m + d + lit :: v <= MAX_FREQ
    ensures DecodeFreqs(data, |l + m + d + lit|) == Some(l + m + d + lit)
    ensures 8 * |data| <= |CodesBits(l + m + d + lit)| + 7
  {
    var out := new OutStream();
    assert CodesBits([]) == [];
    PushTable(out, l, []);
    assert [] + l == l;
    PushTable(out, m, l);
    PushTable(out, d, l + m);
    PushTable(out, lit, l + m + d);
    assert out.Bits() == CodesBits(l + m + d + lit);
    var n := out.Finish();
    TableReadsBack(l + m + d + lit, Zeros(-n));
    data := out.buf;
  }

  lemma {:induction false} CodesSize(vs: seq<nat>)
    ensures |CodesBits(vs)| <= 14 * |vs|
  {
    if vs == [] {
    } else {
      CodesSize(vs[1..]);
    }
  }

  // ---------------------------------------------------------------- the decoder's loop

  /** The decoder's accumulator and read position: the bits not yet decoded. */
  ghost function Pending(data: seq<byte>, accum: nat, accumBits: nat, pos: nat): seq<bool>
    requires pos <= |data|
  {
    ToBits(accumBits, accum) + BytesToBits(data[pos..])
  }

  /** One more byte above the accumulator. */
  lemma ByteAbove(data: seq<byte>, accum: nat, accumBits: nat, pos: nat)
    requires pos < |data| && accumBits <= 56 && accum < Pow2(accumBits)
    ensures var a := Or(accum, Shl64(data[pos], accumBits));
            && a < Pow2(accumBits + 8)
            && Pending(data, a, accumBits + 8, pos + 1) == Pending(data, accum, accumBits, pos)
  {
    Pow2Values();
    Pow2Scaled(data[pos], 8, accumBits);
    Pow2Word(accumBits + 8);
    ShlExact(data[pos], accumBits);
    OrDisjoint(accum, data[pos], accumBits);
    ToBitsConcat(accumBits, accum, 8, data[pos]);
    assert data[pos..][0] == data[pos] && data[pos..][1..] == data[pos + 1..];
    SeqAssoc(ToBits(accumBits, accum), ToBits(8, data[pos]), BytesToBits(data[pos + 1..]));
  }

  method Refill(data: seq<byte>, accum0: nat, accumBits0: nat, pos0: nat)
    returns (accum: nat, accumBits: nat, pos: nat)
    requires pos0 <= |data| && accumBits0 <= 64 && accum0 < Pow2(accumBits0)
    ensures pos <= |data| && accumBits <= 64 && accum < Pow2(accumBits)
    ensures Pending(data, accum, accumBits, pos) == Pending(data, accum0, accumBits0, pos0)
    ensures accumBits > 56 || pos == |data|
  {
    accum, accumBits, pos := accum0, accumBits0, pos0;
    while accumBits <= 56 && pos < |data|
      invariant pos <= |data| && accumBits <= 64 && accum < Pow2(accumBits)
      invariant Pending(data, accum, accumBits, pos) == Pending(data, accum0, accumBits0, pos0)
      decreases |data| - pos
    {
      ByteAbove(data, accum, accumBits, pos);
      accum := Or(accum, Shl64(data[pos], accumBits));
      accumBits, pos := accumBits + 8, pos + 1;
    }
  }

  /** Peeking at the accumulator is peeking at the pending bits when it holds enough of them. */
  lemma PeekAccum(data: seq<byte>, accum: nat, accumBits: nat, pos: nat, n: nat)
    requires pos <= |data| && accum < Pow2(accumBits) && (n <= accumBits || pos == |data|)
    ensures Peek(Pending(data, accum, accumBits, pos), n) == Low(accum, n)
  {
    PeekWord(accumBits, accum, BytesToBits(data[pos..]), n);
    if n > accumBits {
      assert BytesToBits(data[pos..]) == [];
      Pow2Mono(accumBits, n);
      ShrLowUnique(accum, n, 0, accum);
      ShlMul(0, accumBits);
    }
  }

  lemma DropAccum(data: seq<byte>, accum: nat, accumBits: nat, pos: nat, n: nat)
    requires pos <= |data| && accum < Pow2(accumBits) && n <= accumBits
    ensures Shr(accum, n) < Pow2(accumBits - n)
    ensures Pending(data, accum, accumBits, pos)[n..] == Pending(data, Shr(accum, n), accumBits - n, pos)
  {
    CutBits(accumBits, n, accum);
  }

  /** The decoder's view after one value is what the specification reads. */
  lemma ReadMatches(data: seq<byte>, accum: nat, accumBits: nat, pos: nat)
    requires pos <= |data| && accum < Pow2(accumBits) && (14 <= accumBits || pos == |data|)
    ensures var lo5 := Low(accum, 5);
            && lo5 < 32
            && var n := FREQ_NBITS[lo5];
               ReadFreq(Pending(data, accum, accumBits, pos))
               == if n > accumBits then None
                  else Some(Read(ValueOf(lo5, Low(accum, n)), Pending(data, Shr(accum, n), accumBits - n, pos)))
  {
    PeekAccum(data, accum, accumBits, pos, 5);
    PeekBound(Pending(data, accum, accumBits, pos), 5);
    assert Pow2(5) == 32;
    var n := FREQ_NBITS[Low(accum, 5)];
    assert n <= 14;
    if n <= accumBits {
      PeekAccum(data, accum, accumBits, pos, n);
      DropAccum(data, accum, accumBits, pos, n);
    } else {
      assert BytesToBits(data[pos..]) == [];
    }
  }

  /** Reading n more values after those done gives r. */
  ghost predicate Reads(bits: seq<bool>, n: nat, done: seq<nat>, r: Option<ReadAll>) {
    r == match ReadFreqs(bits, n)
      case None => None
      case Some(later) => Some(ReadAll(done + later.values, later.rest))
  }

  lemma ReadsOne(bits: seq<bool>, n: nat, done: seq<nat>, r: Option<ReadAll>)
    requires Reads(bits, n, done, r) && n > 0
    ensures ReadFreq(bits).None? ==> r == None
    ensures ReadFreq(bits).Some? ==> Reads(ReadFreq(bits).value.rest, n - 1, done + [ReadFreq(bits).value.value], r)
  {
    var first := ReadFreq(bits);
    if first.Some? {
      var later := ReadFreqs(first.value.rest, n - 1);
      if later.Some? { SeqAssoc(done, [first.value.value], later.value.values); }
    }
  }

  lemma ReadsNext(bits: seq<bool>, n: nat, done: seq<nat>, r: Option<ReadAll>, v: nat, mid: seq<bool>)
    requires Reads(bits, n, done, r) && n > 0 && ReadFreq(bits) == Some(Read(v, mid))
    ensures Reads(mid, n - 1, done + [v], r)
  {
    ReadsOne(bits, n, done, r);
  }

  lemma ReadsNone(bits: seq<bool>, n: nat)
    ensures Reads(bits, n, [], ReadFreqs(bits, n))
  {
    var r := ReadFreqs(bits, n);
    if r.Some? { assert [] + r.value.values == r.value.values; }
  }

  lemma ReadsAll(bits: seq<bool>, done: seq<nat>, r: Option<ReadAll>)
    requires Reads(bits, 0, done, r)
    ensures r == Some(ReadAll(done, bits))
  {
    assert done + [] == done;
  }

  /** One turn of the loop: refill if short, look the code up, check that all its bits are there, take it. */
  method ReadOne(data: seq<byte>, accum0: nat, accumBits0: nat, pos0: nat)
    returns (ok: bool, value: nat, accum: nat, accumBits: nat, pos: nat)
    requires pos0 <= |data| && accumBits0 <= 64 && accum0 < Pow2(accumBits0)
    ensures pos <= |data| && accumBits <= 64 && accum < Pow2(accumBits)
    ensures ReadFreq(Pending(data, accum0, accumBits0, pos0))
            == if ok then Some(Read(value, Pending(data, accum, accumBits, pos))) else None
  {
    accum, accumBits, pos := accum0, accumBits0, pos0;
    if accumBits < 14 {
      accum, accumBits, pos := Refill(data, accum, accumBits, pos);
    }
    ReadMatches(data, accum, accumBits, pos);
    var lo5 := Low(accum, 5);
    var n := FREQ_NBITS[lo5];
    if n > accumBits { return false, 0, accum, accumBits, pos; }
    DropAccum(data, accum, accumBits, pos, n);
    return true, ValueOf(lo5, Low(accum, n)), Shr(accum, n), accumBits - n, pos;
  }

  /** The decoder has read all, and n symbols are still to come. */
  ghost predicate AtSymbol(data: seq<byte>, nsym: nat, accum: nat, accumBits: nat, pos: nat, all: seq<nat>, n: nat) {
    && pos <= |data| && accumBits <= 64 && accum < Pow2(accumBits)
    && forall done: seq<nat> :: done == all ==>
         Reads(Pending(data, accum, accumBits, pos), n, done, ReadFreqs(BytesToBits(data), nsym))
  }

  lemma BeginSymbols(data: seq<byte>, nsym: nat, accum: nat, accumBits: nat, pos: nat)
    requires pos <= |data| && accumBits <= 64 && accum < Pow2(accumBits)
    requires Pending(data, accum, accumBits, pos) == BytesToBits(data)
    ensures AtSymbol(data, nsym, accum, accumBits, pos, [], nsym)
  {
    ReadsNone(BytesToBits(data), nsym);
  }

  lemma NextSymbol(data: seq<byte>, nsym: nat, accum: nat, accumBits: nat, pos: nat, all: seq<nat>, n: nat,
                   accum': nat, accumBits': nat, pos': nat, v: nat)
    requires AtSymbol(data, nsym, accum, accumBits, pos, all, n) && n > 0
    requires pos' <= |data| && accumBits' <= 64 && accum' < Pow2(accumBits')
    requires ReadFreq(Pending(data, accum, accumBits, pos)) == Some(Read(v, Pending(data, accum', accumBits', pos')))
    ensures AtSymbol(data, nsym, accum', accumBits', pos', all + [v], n - 1)
  {
    var bits, mid := Pending(data, accum, accumBits, pos), Pending(data, accum', accumBits', pos');
    assert Reads(bits, n, all, ReadFreqs(BytesToBits(data), nsym));
    ReadsNext(bits, n, all, ReadFreqs(BytesToBits(data), nsym), v, mid);
  }

  lemma BadSymbol(data: seq<byte>, nsym: nat, accum: nat, accumBits: nat, pos: nat, all: seq<nat>, n: nat)
    requires AtSymbol(data, nsym, accum, accumBits, pos, all, n) && n > 0
    requires ReadFreq(Pending(data, accum, accumBits, pos)) == None
    ensures DecodeFreqs(data, nsym) == None
  {
    assert Reads(Pending(data, accum, accumBits, pos), n, all, ReadFreqs(BytesToBits(data), nsym));
    ReadsOne(Pending(data, accum, accumBits, pos), n, all, ReadFreqs(BytesToBits(data), nsym));
  }

  /** The final check says that fewer than 8 bits are left. */
  lemma EndCheck(data: seq<byte>, nsym: nat, accum: nat, accumBits: nat, pos: nat, all: seq<nat>)
    requires AtSymbol(data, nsym, accum, accumBits, pos, all, 0)
    ensures DecodeFreqs(data, nsym) == if accumBits >= 8 || pos != |data| then None else Some(all)
  {
    ReadsAll(Pending(data, accum, accumBits, pos), all, ReadFreqs(BytesToBits(data), nsym));
  }

  /**
   * The accumulator loop decodes exactly what the bit-level reading says, and its final check (fewer than 8
   * bits left and every byte consumed) is exactly the rule that the stream ends inside its last byte.
   */
  method DecodeV2FreqTableBitstream(data: seq<byte>, nsym: nat) returns (ok: bool, all: seq<nat>)
    ensures DecodeFreqs(data, nsym) == if ok then Some(all) else None
  {
    var accum: nat, accumBits: nat, pos: nat := 0, 0, 0;
    assert Pending(data, 0, 0, 0) == BytesToBits(data) by { assert data[0..] == data; }
    accum, accumBits, pos := Refill(data, accum, accumBits, pos);
    all := [];
    BeginSymbols(data, nsym, accum, accumBits, pos);
    for i := 0 to nsym
      invariant AtSymbol(data, nsym, accum, accumBits, pos, all, nsym - i)
    {
      ghost var a, b, p := accum, accumBits, pos;
      var v;
      ok, v, accum, accumBits, pos := ReadOne(data, accum, accumBits, pos);
      if !ok {
        BadSymbol(data, nsym, a, b, p, all, nsym - i);
        return;
      }
      NextSymbol(data, nsym, a, b, p, all, nsym - i, accum, accumBits, pos, v);
      all := all + [v];
    }
    EndCheck(data, nsym, accum, accumBits, pos, all);
    ok := !(accumBits >= 8 || pos != |data|);
  }
}
