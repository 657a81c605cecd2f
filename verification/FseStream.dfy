/**
 * The FSE bit stack. The writer appends bits least significant first and moves forwards; the reader takes
 * them back most significant first, moving backwards through the same bytes.
 */
module FseStream {
  import opened Bits

  // ---------------------------------------------------------------- the reader, as a value

  /** Accumulator, number of bits in it, and the index just past the bytes not yet loaded. */
  datatype InState = InState(accum: nat, nbits: int, ptr: int)

  function CheckedInit(s: InState): Option<InState> {
    if s.nbits < 56 || s.nbits >= 64 || Shr64(s.accum, s.nbits) != 0 then None else Some(s)
  }

  /** The stream that ends at buf[..end] with bit count n in its header; None is the code's error. */
  function InInit(buf: seq<byte>, end: nat, n: int): Option<InState>
    requires end <= |buf|
  {
    if n != 0 then
      if end < 8 then None else CheckedInit(InState(LE(buf[end - 8..end]), n + 64, end - 8))
    else if end < 7 then
      if end == 0 then Some(InState(0, 56, end - 7)) else None
    else CheckedInit(InState(LE(buf[end - 7..end]), n + 56, end - 7))
  }

  /** Whole bytes that fit in the accumulator: (63 - nbits) & ^7, shifted right by 3. */
  function Room(nbits: int): int {
    (63 - nbits) / 8
  }

  /** The refill at the front edge: byte by byte while any are left. */
  function FlushFront(buf: seq<byte>, s: InState, n: int): InState
    requires s.ptr <= |buf|
    decreases n
  {
    if n <= 0 || s.ptr <= 0 then s
    else FlushFront(buf, InState(Or(Shl64(s.accum, 8), buf[s.ptr - 1]), s.nbits + 8, s.ptr - 1), n - 1)
  }

  function FlushF(buf: seq<byte>, s: InState): InState
    requires s.ptr <= |buf| && s.nbits <= 63
  {
    var nbytes := Room(s.nbits);
    var newPtr := s.ptr - nbytes;
    if newPtr < 0 then FlushFront(buf, s, nbytes)
    else
      var incoming := if newPtr + 8 <= |buf| then LE(buf[newPtr..newPtr + 8]) else LE(buf[newPtr..s.ptr]);
      InState(Or(Shl64(s.accum, 8 * nbytes), Low64(incoming, 8 * nbytes)), s.nbits + 8 * nbytes, newPtr)
  }

  function PullState(s: InState, n: int): InState {
    if n <= 0 then s else InState(Low64(s.accum, s.nbits - n), s.nbits - n, s.ptr)
  }

  function PullValue(s: InState, n: int): nat {
    if n <= 0 then 0 else Shr64(s.accum, s.nbits - n)
  }

  /**
   * What keeps the reader safe on any input: the accumulator holds no bit above nbits, and either k bits can
   * be pulled or the bytes have run out.
   */
  ghost predicate Safe(buf: seq<byte>, s: InState, k: int) {
    && s.ptr <= |buf| && s.nbits <= 63
    && s.accum < U64 && (0 <= s.nbits ==> s.accum < Pow2(s.nbits))
    && (k <= s.nbits || s.ptr <= 0)
  }

  /** A stream that has not run out: its remaining bits are a bit sequence. */
  ghost predicate Live(buf: seq<byte>, s: InState) {
    0 <= s.ptr <= |buf| && 0 <= s.nbits <= 63 && s.accum < Pow2(s.nbits)
  }

  ghost function View(buf: seq<byte>, s: InState): seq<bool>
    requires Live(buf, s)
  {
    BytesToBits(buf[..s.ptr]) + ToBits(s.nbits, s.accum)
  }

  lemma LiveIsSafe(buf: seq<byte>, s: InState)
    requires Live(buf, s)
    ensures Safe(buf, s, 0)
  {
    Pow2Word(s.nbits);
  }

  // ---------------------------------------------------------------- refilling

  /** The 8-byte load masked to 8 * n bits is the n-byte load. */
  lemma WideLoadIsNarrowLoad(buf: seq<byte>, at: nat, n: nat)
    requires n < 8 && at + 8 <= |buf|
    ensures Low64(LE(buf[at..at + 8]), 8 * n) == LE(buf[at..at + n])
  {
    LEPrefix(buf[at..at + 8], n);
    assert buf[at..at + 8][..n] == buf[at..at + n];
  }

  lemma NarrowLoadFits(bs: seq<byte>)
    requires |bs| < 8
    ensures Low64(LE(bs), 8 * |bs|) == LE(bs)
  {
    LEBits(bs);
    ShrLowUnique(LE(bs), 8 * |bs|, 0, LE(bs));
  }

  /** Shifting whole bytes into an accumulator that has room for them loses nothing. */
  lemma ShiftIn(accum: nat, nbits: nat, incoming: nat, k: nat)
    requires accum < Pow2(nbits) && incoming < Pow2(k) && nbits + k <= 63
    ensures 0 <= accum * Pow2(k)
    ensures Or(Shl64(accum, k), incoming) == incoming + accum * Pow2(k) < Pow2(nbits + k)
  {
    Pow2Scaled(accum, nbits, k);
    Pow2Word(nbits + k);
    ShlExact(accum, k);
    OrDisjoint(incoming, accum, k);
  }

  /** The word the fast or the bytewise load brings in. */
  lemma LoadedBytes(buf: seq<byte>, at: nat, end: nat)
    requires at <= end <= |buf| && end - at < 8
    ensures LE(buf[at..end]) < Pow2(8 * (end - at))
    ensures at + 8 <= |buf| ==> Low64(LE(buf[at..at + 8]), 8 * (end - at)) == LE(buf[at..end])
    ensures Low64(LE(buf[at..end]), 8 * (end - at)) == LE(buf[at..end])
  {
    LEBits(buf[at..end]);
    NarrowLoadFits(buf[at..end]);
    if at + 8 <= |buf| { WideLoadIsNarrowLoad(buf, at, end - at); }
  }

  lemma RefillValue(buf: seq<byte>, s: InState)
    requires Live(buf, s) && s.ptr >= Room(s.nbits)
    ensures var at := s.ptr - Room(s.nbits);
            var incoming := LE(buf[at..s.ptr]);
            && incoming < Pow2(8 * Room(s.nbits)) && 0 <= s.accum * Pow2(8 * Room(s.nbits))
            && FlushF(buf, s)
               == InState(incoming + s.accum * Pow2(8 * Room(s.nbits)), s.nbits + 8 * Room(s.nbits), at)
            && FlushF(buf, s).accum < Pow2(FlushF(buf, s).nbits)
  {
    var at := s.ptr - Room(s.nbits);
    LoadedBytes(buf, at, s.ptr);
    ShiftIn(s.accum, s.nbits, LE(buf[at..s.ptr]), 8 * Room(s.nbits));
  }

  /** A refill restores 56 to 63 bits and leaves the bit sequence as it was; 7 bytes in front are enough. */
  lemma FlushKeepsView(buf: seq<byte>, s: InState)
    requires Live(buf, s) && |View(buf, s)| >= 56
    ensures s.ptr - Room(s.nbits) >= 0
    ensures var t := FlushF(buf, s);
            Live(buf, t) && 56 <= t.nbits && View(buf, t) == View(buf, s)
  {
    RefillValue(buf, s);
    var at := s.ptr - Room(s.nbits);
    LoadedBits(buf, at, s.ptr, s.nbits, s.accum);
  }

  /** Bytes loaded below the accumulator leave the bit sequence as it was. */
  lemma LoadedBits(buf: seq<byte>, at: nat, ptr: nat, nbits: nat, accum: nat)
    requires at <= ptr <= |buf|
    ensures 0 <= accum * Pow2(8 * (ptr - at))
    ensures BytesToBits(buf[..at]) + ToBits(nbits + 8 * (ptr - at), LE(buf[at..ptr]) + accum * Pow2(8 * (ptr - at)))
            == BytesToBits(buf[..ptr]) + ToBits(nbits, accum)
  {
    var n := 8 * (ptr - at);
    MulLeqZero(accum, Pow2(n));
    LEBits(buf[at..ptr]);
    ToBitsConcat(n, LE(buf[at..ptr]), nbits, accum);
    BytesToBitsSplit(buf[..ptr], at);
    assert buf[..ptr][..at] == buf[..at] && buf[..ptr][at..] == buf[at..ptr];
    SeqAssoc(BytesToBits(buf[..at]), ToBits(n, LE(buf[at..ptr])), ToBits(nbits, accum));
  }

  lemma MulLeqZero(a: nat, d: nat)
    ensures 0 <= a * d
  {
  }

  lemma {:induction false} FlushFrontSafe(buf: seq<byte>, s: InState, n: int)
    requires Safe(buf, s, 0) && n >= s.ptr && s.nbits + 8 * n <= 63
    ensures Safe(buf, FlushFront(buf, s, n), 56)
    decreases n
  {
    if n <= 0 || s.ptr <= 0 {
    } else {
      Pow2Values();
      ShiftIn(s.accum, s.nbits, buf[s.ptr - 1], 8);
      var t := InState(Or(Shl64(s.accum, 8), buf[s.ptr - 1]), s.nbits + 8, s.ptr - 1);
      Pow2Word(t.nbits);
      FlushFrontSafe(buf, t, n - 1);
    }
  }

  lemma FlushSafe(buf: seq<byte>, s: InState)
    requires Safe(buf, s, 0)
    ensures Safe(buf, FlushF(buf, s), 56)
  {
    if s.ptr - Room(s.nbits) < 0 {
      FlushFrontSafe(buf, s, Room(s.nbits));
    } else {
      RefillValue(buf, s);
      Pow2Word(FlushF(buf, s).nbits);
    }
  }

  // ---------------------------------------------------------------- pulling

  lemma PullSafe(buf: seq<byte>, s: InState, n: nat, k: int)
    requires Safe(buf, s, k) && n <= k
    ensures PullValue(s, n) < Pow2(n)
    ensures Safe(buf, PullState(s, n), k - n)
  {
    if n > 0 && s.nbits >= n {
      ShrLow(s.accum, s.nbits - n);
      ShrBelow(s.accum, s.nbits - n, n);
      Pow2Word(s.nbits - n);
    }
  }

  /** A pull takes the last n bits of the sequence. */
  lemma PullKeepsView(buf: seq<byte>, s: InState, n: nat)
    requires Live(buf, s) && n <= s.nbits
    ensures Live(buf, PullState(s, n)) && PullValue(s, n) < Pow2(n)
    ensures View(buf, s) == View(buf, PullState(s, n)) + ToBits(n, PullValue(s, n))
    ensures PullState(s, n).nbits == s.nbits - n
  {
    if n > 0 {
      PullParts(buf, s, n);
      SplitTail(BytesToBits(buf[..s.ptr]), s.nbits, s.nbits - n, s.accum);
    } else {
      assert View(buf, s) + ToBits(0, 0) == View(buf, s);
    }
  }

  lemma PullParts(buf: seq<byte>, s: InState, n: nat)
    requires Live(buf, s) && 0 < n <= s.nbits
    ensures PullState(s, n) == InState(Low(s.accum, s.nbits - n), s.nbits - n, s.ptr) && Live(buf, PullState(s, n))
    ensures PullValue(s, n) == Shr(s.accum, s.nbits - n) < Pow2(n)
  {
    CutBits(s.nbits, s.nbits - n, s.accum);
  }

  lemma SplitTail(front: seq<bool>, nbits: nat, m: nat, a: nat)
    requires m <= nbits && a < Pow2(nbits)
    ensures front + ToBits(nbits, a) == front + ToBits(m, Low(a, m)) + ToBits(nbits - m, Shr(a, m))
  {
    CutBits(nbits, m, a);
    SeqAssoc(front, ToBits(m, Low(a, m)), ToBits(nbits - m, Shr(a, m)));
  }

  /** Pulling the width just pushed gives back the value pushed. */
  lemma PullPushed(buf: seq<byte>, s: InState, rest: seq<bool>, n: nat, v: nat)
    requires Live(buf, s) && n <= s.nbits && v < Pow2(n)
    requires View(buf, s) == rest + ToBits(n, v)
    ensures Live(buf, PullState(s, n)) && View(buf, PullState(s, n)) == rest && PullValue(s, n) == v
    ensures PullState(s, n).nbits == s.nbits - n
  {
    PullKeepsView(buf, s, n);
    var t, r := View(buf, PullState(s, n)), PullValue(s, n);
    assert |t| == |rest|;
    assert rest == (rest + ToBits(n, v))[..|rest|] == (t + ToBits(n, r))[..|rest|] == t;
    assert ToBits(n, v) == (rest + ToBits(n, v))[|rest|..] == (t + ToBits(n, r))[|rest|..] == ToBits(n, r);
    ToBitsInjective(n, v, r);
  }

  // ---------------------------------------------------------------- finish and init

  /** The bit count the writer leaves for the reader: minus the number of padding bits in the last byte. */
  function FinishCount(nbits: nat): (n: int)
    ensures -7 <= n <= 0 && (nbits - n) % 8 == 0
  {
    if nbits % 8 == 0 then 0 else nbits % 8 - 8
  }

  /** If a sequence ends in pad zeros, so does any value spelled by its last bits. */
  lemma HighZeros(front: seq<bool>, m: nat, low: nat, pad: nat, high: nat, content: seq<bool>)
    requires high < Pow2(pad) && front + (ToBits(m, low) + ToBits(pad, high)) == content + Zeros(pad)
    ensures high == 0 && front + ToBits(m, low) == content
  {
    var all := content + Zeros(pad);
    assert all == (front + ToBits(m, low)) + ToBits(pad, high);
    assert |front + ToBits(m, low)| == |content|;
    assert Zeros(pad) == all[|content|..] == ToBits(pad, high);
    assert content == all[..|content|] == front + ToBits(m, low);
    ToBitsZero(pad);
    ToBitsInjective(pad, high, 0);
  }

  /** The last bytes of a buffer as an accumulator, the padding zeros at its top cut off. */
  lemma TailLoad(front: seq<byte>, tail: seq<byte>, content: seq<bool>, pad: nat)
    requires pad <= 8 * |tail| && BytesToBits(front) + BytesToBits(tail) == content + Zeros(pad)
    ensures LE(tail) < Pow2(8 * |tail| - pad)
    ensures BytesToBits(front) + ToBits(8 * |tail| - pad, LE(tail)) == content
  {
    LEBits(tail);
    var m := 8 * |tail| - pad;
    CutBits(8 * |tail|, m, LE(tail));
    HighZeros(BytesToBits(front), m, Low(LE(tail), m), pad, Shr(LE(tail), m), content);
  }

  /** A stream whose last bytes hold no bit above the count opens on them. */
  lemma OpensOnTail(buf: seq<byte>, end: nat, n: int, k: nat)
    requires -7 <= n <= 0 && k == (if n != 0 then 8 else 7) && k <= end <= |buf|
    requires LE(buf[end - k..end]) < Pow2(8 * k + n)
    ensures InInit(buf, end, n) == Some(InState(LE(buf[end - k..end]), 8 * k + n, end - k))
  {
    ShrLowUnique(LE(buf[end - k..end]), 8 * k + n, 0, LE(buf[end - k..end]));
  }

  lemma {:induction false} ShiftedOut(x: nat, m: nat)
    ensures Shr(x, m) == 0 <==> x < Pow2(m)
  {
    if x < Pow2(m) {
      ShrLowUnique(x, m, 0, x);
    } else {
      ShrLow(x, m);
    }
  }

  /** Bits above the count stand in the last byte. */
  lemma {:induction false} LastByteAbove(low: seq<byte>, last: byte, k: nat)
    requires |low| == 7 && k <= 8
    ensures LE(low + [last]) < Pow2(56 + k) <==> last < Pow2(k)
  {
    LEConcat(low, [last]);
    LEBits(low);
    LEOne(last);
    Pow2Add(k, 56);
    DigitBelow(LE(low), last, Pow2(k), Pow2(56));
  }

  lemma {:induction false} DigitBelow(x: nat, last: nat, q: nat, d: nat)
    requires x < d
    ensures x + last * d < q * d <==> last < q
  {
    if last < q {
      MulUpper(last, q, d);
    } else {
      MulLeq(q, last, d);
    }
  }

  /** A stream opens exactly when its bit count is in range, the bytes are there, and no bit is above the count. */
  lemma {:induction false} OpensExactlyWhen(buf: seq<byte>, end: nat, n: int)
    requires end <= |buf|
    ensures InInit(buf, end, n).Some? <==>
      || (n == 0 && (end == 0 || end >= 7))
      || (-8 <= n < 0 && end >= 8 && buf[end - 1] < Pow2(8 + n))
  {
    if n == 0 && end >= 7 {
      LEBits(buf[end - 7..end]);
      ShiftedOut(LE(buf[end - 7..end]), 56);
    } else if -8 <= n < 0 && end >= 8 {
      assert buf[end - 8..end] == buf[end - 8..end - 1] + [buf[end - 1]];
      LastByteAbove(buf[end - 8..end - 1], buf[end - 1], 8 + n);
      ShiftedOut(LE(buf[end - 8..end]), n + 64);
    }
  }

  /** Opening a finished stream with the writer's bit count shows exactly the bits written. */
  lemma InitShowsContent(buf: seq<byte>, end: nat, content: seq<bool>)
    requires end <= |buf| && |content| >= 56
    requires BytesToBits(buf[..end]) == content + Zeros(-FinishCount(|content|))
    ensures var r := InInit(buf, end, FinishCount(|content|));
            && r.Some? && Live(buf, r.value) && View(buf, r.value) == content && 56 <= r.value.nbits
  {
    var n := FinishCount(|content|);
    assert 8 * end == |content| - n;
    var k := if n != 0 then 8 else 7;
    BytesToBitsSplit(buf[..end], end - k);
    assert buf[..end][..end - k] == buf[..end - k] && buf[..end][end - k..] == buf[end - k..end];
    TailLoad(buf[..end - k], buf[end - k..end], content, -n);
    OpensOnTail(buf, end, n, k);
  }

  /** payload is a finished stream: the bits written, padded to whole bytes, with the writer's bit count n. */
  ghost predicate Spells(payload: seq<byte>, bits: seq<bool>, n: int) {
    n == FinishCount(|bits|) && BytesToBits(payload) == bits + Zeros(-n)
  }

  /** Any 7 bytes in front of a finished stream are enough for the reader to open on exactly the bits written. */
  lemma OpensOnContent(front: seq<byte>, payload: seq<byte>, bits: seq<bool>, n: int)
    requires |front| >= 7 && Spells(payload, bits, n)
    ensures var buf := front + payload;
            var r := InInit(buf, |buf|, n);
            && r.Some? && Live(buf, r.value) && View(buf, r.value) == BytesToBits(front) + bits
  {
    var buf := front + payload;
    ContentBelow(front, payload, bits, n);
    assert buf[..|buf|] == buf;
    InitShowsContent(buf, |buf|, BytesToBits(front) + bits);
  }

  lemma ContentBelow(front: seq<byte>, payload: seq<byte>, bits: seq<bool>, n: int)
    requires Spells(payload, bits, n)
    ensures var content := BytesToBits(front) + bits;
            && FinishCount(|content|) == n && |content| >= 8 * |front|
            && BytesToBits(front + payload) == content + Zeros(-n)
  {
    var below := BytesToBits(front);
    BytesToBitsConcat(front, payload);
    SeqAssoc(below, bits, Zeros(-n));
    assert |below + bits| == 8 * |front| + |bits|;
    WholeBytesBelow(|front|, |bits|, |below + bits|, n);
  }

  lemma WholeBytesBelow(k: nat, m: nat, all: nat, n: int)
    requires all == 8 * k + m && n == FinishCount(m)
    ensures FinishCount(all) == n
  {
  }

  lemma InitSafe(buf: seq<byte>, end: nat, n: int)
    requires end <= |buf| && InInit(buf, end, n).Some?
    ensures Safe(buf, InInit(buf, end, n).value, 0)
  {
    if end == 0 {
      Pow2Word(56);
    } else {
      var k := if n != 0 then 8 else 7;
      CheckedIsSafe(buf, InState(LE(buf[end - k..end]), n + 8 * k, end - k));
    }
  }

  lemma CheckedIsSafe(buf: seq<byte>, s: InState)
    requires CheckedInit(s).Some? && 0 <= s.ptr <= |buf|
    ensures Safe(buf, s, 0)
  {
    ShrLow(s.accum, s.nbits);
    Pow2Word(s.nbits);
  }

  // ---------------------------------------------------------------- the stack as a whole

  /** One push: n bits holding v. */
  datatype Item = Item(n: nat, v: nat)

  ghost predicate ItemsOk(items: seq<Item>) {
    forall x <- items :: x.n <= 56 && x.v < Pow2(x.n)
  }

  /** The bits of pushes made in order. */
  function ItemsBits(items: seq<Item>): seq<bool> {
    if items == [] then []
    else ItemsBits(items[..|items| - 1]) + ToBits(items[|items| - 1].n, items[|items| - 1].v)
  }

  /** Pulls of the given widths, last width first, with a refill before each; the values in push order. */
  ghost function PopValues(buf: seq<byte>, s: InState, items: seq<Item>): (r: seq<nat>)
    requires Safe(buf, s, 0) && ItemsOk(items)
    ensures |r| == |items|
    decreases |items|
  {
    if items == [] then []
    else
      var last := items[|items| - 1];
      assert last in items;
      FlushSafe(buf, s);
      var t := FlushF(buf, s);
      PullSafe(buf, t, last.n, 56);
      PopValues(buf, PullState(t, last.n), items[..|items| - 1]) + [PullValue(t, last.n)]
  }

  lemma {:induction false} PopsWhatWasPushed(buf: seq<byte>, s: InState, below: seq<bool>, items: seq<Item>)
    requires ItemsOk(items) && Live(buf, s) && |below| >= 56 && View(buf, s) == below + ItemsBits(items)
    ensures Safe(buf, s, 0)
    ensures forall i :: 0 <= i < |items| ==> PopValues(buf, s, items)[i] == items[i].v
    decreases |items|
  {
    LiveIsSafe(buf, s);
    if items == [] {
    } else {
      var last, init := items[|items| - 1], items[..|items| - 1];
      assert last in items;
      SeqAssoc(below, ItemsBits(init), ToBits(last.n, last.v));
      FlushKeepsView(buf, s);
      var t := FlushF(buf, s);
      PullPushed(buf, t, below + ItemsBits(init), last.n, last.v);
      PopsWhatWasPushed(buf, PullState(t, last.n), below, init);
    }
  }

  /**
   * Bit-stack duality: whatever was pushed, opening the finished stream behind any 7 bytes and pulling the same
   * widths in reverse order gives back the same values; the front is never reached.
   */
  lemma StackDuality(front: seq<byte>, payload: seq<byte>, items: seq<Item>, n: int)
    requires ItemsOk(items) && |front| >= 7 && Spells(payload, ItemsBits(items), n)
    ensures var buf := front + payload;
            var r := InInit(buf, |buf|, n);
            && r.Some? && Safe(buf, r.value, 0)
            && forall i :: 0 <= i < |items| ==> PopValues(buf, r.value, items)[i] == items[i].v
  {
    var buf := front + payload;
    OpensOnContent(front, payload, ItemsBits(items), n);
    PopsWhatWasPushed(buf, InInit(buf, |buf|, n).value, BytesToBits(front), items);
  }

  // ---------------------------------------------------------------- the stream objects

  class InStream {
    var accum: nat
    var accumNBits: int

    constructor (a: nat, n: int)
      ensures accum == a && accumNBits == n
    {
      accum, accumNBits := a, n;
    }

    /** The reader as a value, with the caller's read pointer. */
    function State(ptr: int): InState
      reads this
    {
      InState(accum, accumNBits, ptr)
    }

    method Flush(buf: seq<byte>, ptr: int) returns (newPtr: int)
      requires ptr <= |buf| && accumNBits <= 63 && (accumNBits < 0 ==> ptr <= 0)
      modifies this
      ensures State(newPtr) == FlushF(buf, old(State(ptr)))
    {
      var nbytes := Room(accumNBits);
      newPtr := ptr - nbytes;
      if newPtr < 0 {
        newPtr := FlushAtFront(buf, ptr, nbytes);
        return;
      }
      var incoming;
      if newPtr + 8 <= |buf| {
        incoming := LE(buf[newPtr..newPtr + 8]);
      } else {
        incoming := LoadBytes(buf, newPtr, nbytes);
      }
      accum := Or(Shl64(accum, 8 * nbytes), Low64(incoming, 8 * nbytes));
      accumNBits := accumNBits + 8 * nbytes;
    }

    /** The refill near the start of the buffer, where fewer bytes are left than fit. */
    method FlushAtFront(buf: seq<byte>, ptr: int, nbytes: int) returns (newPtr: int)
      requires ptr <= |buf|
      modifies this
      ensures State(newPtr) == FlushFront(buf, old(State(ptr)), nbytes)
    {
      newPtr := ptr;
      var i := 0;
      while i < nbytes && newPtr > 0
        invariant newPtr <= |buf|
        invariant FlushFront(buf, State(newPtr), nbytes - i) == old(FlushFront(buf, State(ptr), nbytes))
        decreases nbytes - i
      {
        newPtr := newPtr - 1;
        accum, accumNBits := Or(Shl64(accum, 8), buf[newPtr]), accumNBits + 8;
        i := i + 1;
      }
    }

    method Pull(n: int, ghost ptr: int) returns (r: nat)
      modifies this
      ensures State(ptr) == PullState(old(State(ptr)), n) && r == PullValue(old(State(ptr)), n)
    {
      if n <= 0 { return 0; }
      accumNBits := accumNBits - n;
      r := Shr64(accum, accumNBits);
      accum := Low64(accum, accumNBits);
    }
  }

  /** The byte-at-a-time load. */
  method LoadBytes(buf: seq<byte>, at: nat, n: nat) returns (incoming: nat)
    requires at + n <= |buf| && n <= 8
    ensures incoming == LE(buf[at..at + n])
  {
    incoming := 0;
    for i := 0 to n
      invariant incoming == LE(buf[at..at + i])
    {
      NextByte(buf[at..at + i], buf[at + i]);
      assert buf[at..at + i] + [buf[at + i]] == buf[at..at + (i + 1)];
      incoming := Or(incoming, Shl64(buf[at + i], 8 * i));
    }
  }

  method OpenStream(buf: seq<byte>, end: nat, n: int) returns (ok: bool, s: InStream)
    requires end <= |buf|
    ensures fresh(s)
    ensures ok <==> InInit(buf, end, n).Some?
    ensures ok ==> s.State(if n != 0 then end - 8 else end - 7) == InInit(buf, end, n).value
  {
    ok := false;
    s := new InStream(0, 0);
    if n != 0 {
      if end < 8 { return; }
      s.accum, s.accumNBits := LE(buf[end - 8..end]), n + 64;
    } else {
      if end < 7 {
        if end == 0 {
          s.accum, s.accumNBits := 0, 56;
          ok := true;
        }
        return;
      }
      s.accum, s.accumNBits := LE(buf[end - 7..end]), n + 56;
    }
    ok := !(s.accumNBits < 56 || s.accumNBits >= 64 || Shr64(s.accum, s.accumNBits) != 0);
  }

  class OutStream {
    var accum: nat
    var accumNBits: nat
    var buf: seq<byte>

    constructor ()
      ensures Valid() && Bits() == [] && accumNBits == 0
    {
      accum, accumNBits, buf := 0, 0, [];
    }

    ghost predicate Valid()
      reads this
    {
      accumNBits <= 64 && accum < Pow2(accumNBits)
    }

    /** Everything written so far. */
    ghost function Bits(): seq<bool>
      reads this
    {
      BytesToBits(buf) + ToBits(accumNBits, accum)
    }

    method Push(n: int, v: nat)
      requires Valid() && accumNBits + n <= 64
      modifies this`accum, this`accumNBits
      ensures Valid() && accumNBits == old(accumNBits) + Max(n, 0)
      ensures Bits() == old(Bits()) + ToBits(Max(n, 0), v)
    {
      if n <= 0 {
        assert old(Bits()) + ToBits(0, v) == Bits();
        return;
      }
      PushedBits(BytesToBits(buf), accum, accumNBits, n, v);
      accum := Or(accum, Shl64(Low64(v, n), accumNBits));
      accumNBits := accumNBits + n;
    }

    /** Moves whole bytes from the accumulator to the buffer; fewer than 8 bits stay behind. */
    method Flush()
      requires Valid()
      modifies this
      ensures Valid() && accumNBits == old(accumNBits) % 8 && Bits() == old(Bits())
    {
      var nbytes := accumNBits / 8;
      ghost var k := accumNBits;
      for i := 0 to nbytes
        invariant 8 * i <= k && accum < Pow2(k - 8 * i) && accumNBits == k
        invariant BytesToBits(buf) + ToBits(k - 8 * i, accum) == old(Bits())
      {
        FlushedByte(buf, k - 8 * i, accum);
        buf := buf + [accum % 256];
        accum := accum / 256;
      }
      accumNBits := accumNBits - 8 * nbytes;
    }

    /** Writes the last partial byte, zero padded, and returns the reader's bit count. */
    method Finish() returns (n: int)
      requires Valid() && accumNBits < 8
      modifies this
      ensures n == FinishCount(old(|Bits()|))
      ensures BytesToBits(buf) == old(Bits()) + Zeros(-n)
    {
      if accumNBits > 0 {
        FinishedByte(buf, accumNBits, accum);
        FinishedCount(|buf|, accumNBits, |Bits()|);
        buf := buf + [accum % 256];
        n := accumNBits - 8;
        accum, accumNBits := 0, 0;
        return;
      }
      FinishedCount(|buf|, 0, |Bits()|);
      assert Bits() + Zeros(0) == BytesToBits(buf);
      return 0;
    }
  }

  /** Finishes a stream and takes its bytes. */
  method FinishStream(out: OutStream) returns (payload: seq<byte>, n: int)
    requires out.Valid() && out.accumNBits < 8
    modifies out
    ensures Spells(payload, old(out.Bits()), n)
  {
    n := out.Finish();
    payload := out.buf;
  }

  /** Pushes in order, a flush after each, and a finish. */
  method WriteItems(items: seq<Item>) returns (payload: seq<byte>, n: int)
    requires ItemsOk(items)
    ensures Spells(payload, ItemsBits(items), n)
  {
    var out := new OutStream();
    for i := 0 to |items|
      invariant fresh(out) && out.Valid() && out.accumNBits < 8 && out.Bits() == ItemsBits(items[..i])
    {
      var x := items[i];
      assert x in items;
      assert items[..i + 1][..i] == items[..i];
      out.Push(x.n, x.v);
      out.Flush();
    }
    assert items[..|items|] == items;
    payload, n := FinishStream(out);
  }

  /** Adding the next byte above the ones already gathered. */
  lemma NextByte(bs: seq<byte>, b: byte)
    requires |bs| < 8
    ensures Or(LE(bs), Shl64(b, 8 * |bs|)) == LE(bs + [b])
  {
    LEBits(bs);
    OrAbove(LE(bs), b, 8 * |bs|);
    LEOne(b);
    LEConcat(bs, [b]);
  }

  lemma LEOne(b: byte)
    ensures LE([b]) == b
  {
    assert LE([b]) == b + 256 * LE([]);
  }

  lemma OrAbove(x: nat, b: byte, k: nat)
    requires k + 8 <= 64 && x < Pow2(k)
    ensures 0 <= b * Pow2(k) && Or(x, Shl64(b, k)) == x + b * Pow2(k)
  {
    Pow2Values();
    Pow2Scaled(b, 8, k);
    Pow2Word(8 + k);
    ShlExact(b, k);
    OrDisjoint(x, b, k);
  }

  lemma BytesToBitsAppend(buf: seq<byte>, b: byte)
    ensures BytesToBits(buf + [b]) == BytesToBits(buf) + ToBits(8, b)
  {
    BytesToBitsConcat(buf, [b]);
    assert BytesToBits([b]) == ToBits(8, b) + BytesToBits([]);
  }

  /** A push of n bits lands above the k bits already held. */
  lemma PushedBits(front: seq<bool>, a: nat, k: nat, n: nat, v: nat)
    requires a < Pow2(k) && 0 < n && k + n <= 64
    ensures var r := Or(a, Shl64(Low64(v, n), k));
            r < Pow2(k + n) && front + ToBits(k + n, r) == front + ToBits(k, a) + ToBits(n, v)
  {
    var low := Low(v, n);
    ToBitsLow(n, v);
    Pow2Scaled(low, n, k);
    PushedValue(a, k, n, v);
    ToBitsConcat(k, a, n, low);
    SeqAssoc(front, ToBits(k, a), ToBits(n, v));
  }

  lemma PushedValue(a: nat, k: nat, n: nat, v: nat)
    requires a < Pow2(k) && 0 < n && k + n <= 64 && Low(v, n) < Pow2(n)
    ensures 0 <= Low(v, n) * Pow2(k) && Or(a, Shl64(Low64(v, n), k)) == a + Low(v, n) * Pow2(k)
  {
    var low := Low(v, n);
    Pow2Scaled(low, n, k);
    Pow2Word(n + k);
    if n == 64 {
      WordMod(v);
      OrZero(v % U64);
    } else {
      ShlExact(low, k);
      OrDisjoint(a, low, k);
    }
  }

  lemma WordMod(v: nat)
    ensures v % U64 == Low(v, 64)
  {
    Pow2Word(64);
    ShrLowIsDivMod(v, 64);
  }

  lemma FlushedByte(buf: seq<byte>, k: nat, a: nat)
    requires 8 <= k && a < Pow2(k)
    ensures a / 256 < Pow2(k - 8)
    ensures BytesToBits(buf + [a % 256]) + ToBits(k - 8, a / 256) == BytesToBits(buf) + ToBits(k, a)
  {
    assert Pow2(8) == 256 by { Pow2Values(); }
    CutBits(k, 8, a);
    ShrLowIsDivMod(a, 8);
    BytesToBitsAppend(buf, a % 256);
    SeqAssoc(BytesToBits(buf), ToBits(8, Low(a, 8)), ToBits(k - 8, Shr(a, 8)));
  }

  /** Bits above a value are zeros. */
  lemma {:induction false} PadBits(n: nat, k: nat, a: nat)
    requires k <= n && a < Pow2(k)
    ensures ToBits(n, a) == ToBits(k, a) + Zeros(n - k)
  {
    if k == 0 {
      ToBitsZero(n);
    } else {
      PadBits(n - 1, k - 1, a / 2);
    }
  }

  lemma LastByte(k: nat, a: nat)
    requires k < 8 && a < Pow2(k)
    ensures a < 256
  {
    Pow2Mono(k, 8);
    Pow2Values();
  }

  lemma FinishedCount(bytes: nat, k: nat, all: nat)
    requires k < 8 && all == 8 * bytes + k
    ensures FinishCount(all) == if k == 0 then 0 else k - 8
  {
  }

  lemma FinishedByte(buf: seq<byte>, k: nat, a: nat)
    requires k < 8 && a < Pow2(k)
    ensures a % 256 == a && BytesToBits(buf + [a % 256]) == BytesToBits(buf) + ToBits(k, a) + Zeros(8 - k)
  {
    LastByte(k, a);
    SmallMod(a, 256);
    PadBits(8, k, a);
    PaddedByte(buf, a, ToBits(k, a), Zeros(8 - k), [a % 256]);
  }

  lemma PaddedByte(buf: seq<byte>, b: byte, low: seq<bool>, high: seq<bool>, last: seq<byte>)
    requires ToBits(8, b) == low + high && last == [b]
    ensures BytesToBits(buf + last) == BytesToBits(buf) + low + high
  {
    BytesToBitsAppend(buf, b);
    SeqAssoc(BytesToBits(buf), low, high);
  }
}
