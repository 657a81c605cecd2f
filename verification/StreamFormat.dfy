/** The stream format on bytes: which streams decode, to what, and which check refuses the others. */
module StreamFormat {
  import opened Bits
  import opened FseTables
  import opened BlockSpec
  import opened FreqCode
  import opened V1Header
  import opened V2Header
  import opened Decompress
  import LzvnDecode

  // ---------------------------------------------------------------- numbers and tags

  function Num16(b: seq<byte>, at: nat): nat
    requires at + 2 <= |b|
  {
    b[at] as int + 256 * (b[at + 1] as int)
  }

  function Num32(b: seq<byte>, at: nat): nat
    requires at + 4 <= |b|
  {
    Num16(b, at) + 65536 * Num16(b, at + 2)
  }

  function Num64(b: seq<byte>, at: nat): nat
    requires at + 8 <= |b|
  {
    Num32(b, at) + 4294967296 * Num32(b, at + 4)
  }

  /** The two's complement reading of a 32-bit number. */
  function Signed(n: nat): int {
    if n >= 2147483648 then n - 4294967296 else n
  }

  /** The four characters "bvx" and this one stand at a position. */
  predicate Tag(b: seq<byte>, at: nat, last: char) {
    && at + 4 <= |b| && b[at] == 'b' as int && b[at + 1] == 'v' as int && b[at + 2] == 'x' as int
    && b[at + 3] == last as int
  }

  lemma {:induction false} TwoBytes(b: seq<byte>, at: nat)
    requires at + 2 <= |b|
    ensures LE(b[at..at + 2]) == Num16(b, at)
  {
    var s := b[at..at + 2];
    assert s[1..] == [b[at + 1]] && s[1..][1..] == [];
    assert LE(s[1..]) == b[at + 1];
  }

  lemma {:induction false} FourBytes(b: seq<byte>, at: nat)
    requires at + 4 <= |b|
    ensures LE(b[at..at + 4]) == Num32(b, at)
  {
    TwoBytes(b, at + 2);
    var s := b[at..at + 4];
    assert s[1..][1..] == b[at + 2..at + 4] && s[1..][0] == b[at + 1];
  }

  lemma {:induction false} EightBytes(b: seq<byte>, at: nat)
    requires at + 8 <= |b|
    ensures LE(b[at..at + 8]) == Num64(b, at)
  {
    FourBytes(b, at);
    FourBytes(b, at + 4);
    LEConcat(b[at..at + 4], b[at + 4..at + 8]);
    assert b[at..at + 8] == b[at..at + 4] + b[at + 4..at + 8];
    Pow2Big();
  }

  lemma {:induction false} DigitsOf(b0: int, b1: int, b2: int, b3: int, c: int)
    requires 0 <= b0 < 256 && 0 <= b1 < 256 && 0 <= b2 < 256 && 0 <= b3 < 256 && 0 <= c < 256
    ensures b0 + 256 * b1 + 65536 * b2 + 16777216 * b3 == 0x787662 + 16777216 * c
            <==> b0 == 0x62 && b1 == 0x76 && b2 == 0x78 && b3 == c
  {
  }

  lemma {:induction false} TagIsMagic(b: seq<byte>, at: nat, last: char)
    requires at + 4 <= |b| && last as int < 256
    ensures Tag(b, at, last) <==> LE(b[at..at + 4]) == 0x787662 + 16777216 * (last as int)
  {
    FourBytes(b, at);
    DigitsOf(b[at], b[at + 1], b[at + 2], b[at + 3], last as int);
  }

  /** The kind of block a tag announces. */
  lemma {:induction false} TagIsKind(b: seq<byte>, at: nat)
    requires at + 4 <= |b|
    ensures var k := KindOf(LE(b[at..at + 4]));
      && (Tag(b, at, '$') <==> k == EndOfStream) && (Tag(b, at, '-') <==> k == Uncompressed)
      && (Tag(b, at, '1') <==> k == CompressedV1) && (Tag(b, at, '2') <==> k == CompressedV2)
      && (Tag(b, at, 'n') <==> k == CompressedLzvn)
  {
    TagIsMagic(b, at, '$');
    TagIsMagic(b, at, '-');
    TagIsMagic(b, at, '1');
    TagIsMagic(b, at, '2');
    TagIsMagic(b, at, 'n');
  }

  // ---------------------------------------------------------------- headers

  /** n 16-bit numbers from a position on. */
  predicate Nums16(b: seq<byte>, at: nat, n: nat, w: seq<nat>) {
    |w| == n && at + 2 * n <= |b| && forall i :: 0 <= i < n ==> w[i] == Num16(b, at + 2 * i)
  }

  /** The 772 bytes of a V1 header. */
  predicate V1Fields(b: seq<byte>, at: nat, h: Header) {
    && at + 772 <= |b|
    && h.nRawBytes == Num32(b, at + 4) && h.nLiterals == Num32(b, at + 12) && h.nMatches == Num32(b, at + 16)
    && h.nLiteralPayloadBytes == Num32(b, at + 20) && h.nLMDPayloadBytes == Num32(b, at + 24)
    && h.literalBits == Signed(Num32(b, at + 28)) && Nums16(b, at + 32, 4, h.literalState)
    && h.lmdBits == Signed(Num32(b, at + 40))
    && h.lState == Num16(b, at + 44) && h.mState == Num16(b, at + 46) && h.dState == Num16(b, at + 48)
    && Nums16(b, at + 52, 20, h.lFreq) && Nums16(b, at + 92, 20, h.mFreq) && Nums16(b, at + 132, 64, h.dFreq)
    && Nums16(b, at + 260, 256, h.literalFreq)
  }

  lemma {:induction false} WordsAre(b: seq<byte>, from: nat, at: nat, n: nat, w: seq<nat>)
    requires from + at + 2 * n <= |b|
    ensures Nums16(b, from + at, n, w) <==> w == Words16(b[from..], at, n)
  {
    var c := b[from..];
    forall i | 0 <= i < n
      ensures Words16(c, at, n)[i] == Num16(b, from + at + 2 * i)
    {
      TwoBytes(c, at + 2 * i);
    }
  }

  lemma {:induction false} Word32Is(b: seq<byte>, from: nat, at: nat)
    requires from + at + 4 <= |b|
    ensures LE(b[from..][at..at + 4]) == Num32(b, from + at)
  {
    FourBytes(b[from..], at);
  }

  lemma {:induction false} Word16Is(b: seq<byte>, from: nat, at: nat)
    requires from + at + 2 <= |b|
    ensures LE(b[from..][at..at + 2]) == Num16(b, from + at)
  {
    TwoBytes(b[from..], at);
  }

  lemma {:induction false} V1NumbersRead(b: seq<byte>, at: nat, c: seq<byte>)
    requires at + 772 <= |b| && c == b[at..]
    ensures LE(c[4..8]) == Num32(b, at + 4) && LE(c[12..16]) == Num32(b, at + 12)
    ensures LE(c[16..20]) == Num32(b, at + 16) && LE(c[20..24]) == Num32(b, at + 20)
    ensures LE(c[24..28]) == Num32(b, at + 24) && LE(c[28..32]) == Num32(b, at + 28)
    ensures LE(c[40..44]) == Num32(b, at + 40) && LE(c[44..46]) == Num16(b, at + 44)
    ensures LE(c[46..48]) == Num16(b, at + 46) && LE(c[48..50]) == Num16(b, at + 48)
  {
    Word32Is(b, at, 4);
    Word32Is(b, at, 12);
    Word32Is(b, at, 16);
    Word32Is(b, at, 20);
    Word32Is(b, at, 24);
    Word32Is(b, at, 28);
    Word32Is(b, at, 40);
    Word16Is(b, at, 44);
    Word16Is(b, at, 46);
    Word16Is(b, at, 48);
  }

  lemma {:induction false} V1FieldsRead(b: seq<byte>, at: nat, h: Header)
    requires at + 772 <= |b|
    ensures V1Fields(b, at, h) <==> h == ReadV1Header(b[at..])
  {
    V1NumbersRead(b, at, b[at..]);
    WordsAre(b, at, 32, 4, h.literalState);
    WordsAre(b, at, 52, 20, h.lFreq);
    WordsAre(b, at, 92, 20, h.mFreq);
    WordsAre(b, at, 132, 64, h.dFreq);
    WordsAre(b, at, 260, 256, h.literalFreq);
  }

  /** The literal counts of a V2 header: four fields of one word. */
  predicate LiteralWord(w: nat, h: Header) {
    && h.nLiterals == w % 0x10_0000 && h.nLiteralPayloadBytes == w / 0x10_0000 % 0x10_0000
    && h.nMatches == w / 0x100_0000_0000 % 0x10_0000 && h.literalBits == w / 0x1000_0000_0000_0000 % 8 - 7
  }

  /** The literal states and the L/M/D payload. */
  predicate StateWord(w: nat, h: Header) {
    && |h.literalState| == 4 && h.literalState[0] == w % 1024 && h.literalState[1] == w / 1024 % 1024
    && h.literalState[2] == w / 0x10_0000 % 1024 && h.literalState[3] == w / 0x4000_0000 % 1024
    && h.nLMDPayloadBytes == w / 0x100_0000_0000 % 0x10_0000 && h.lmdBits == w / 0x1000_0000_0000_0000 % 8 - 7
  }

  /** The three L/M/D states. */
  predicate LmdWord(w: nat, h: Header) {
    h.lState == w % 1024 && h.mState == w / 1024 % 1024 && h.dState == w / 0x10_0000 % 1024
  }

  /** The four tables stand one after another. */
  predicate FourTables(all: seq<nat>, h: Header) {
    && |all| == 20 + 20 + 64 + 256
    && h.lFreq == all[..20] && h.mFreq == all[20..40] && h.dFreq == all[40..104] && h.literalFreq == all[104..]
  }

  /** The fixed fields and the tables of a V2 header of this size. */
  ghost predicate V2Fields(b: seq<byte>, at: nat, h: Header, size: nat) {
    && at + 32 <= |b| && size == Num32(b, at + 24) && 32 <= size <= |b| - at
    && exists all :: TablesReadAs(b[at + 32..at + size], all) && V2Holds(b, at, h, all)
  }

  /** What the frequency area of a header reads as. */
  ghost predicate TablesReadAs(data: seq<byte>, all: Option<seq<nat>>) {
    forall d: seq<byte> :: d == data ==> DecodeFreqs(d, FREQ_SYMBOLS) == all
  }

  lemma {:induction false} TablesReadOnce(data: seq<byte>, all: Option<seq<nat>>, other: Option<seq<nat>>)
    requires TablesReadAs(data, all) && TablesReadAs(data, other)
    ensures all == other
  {
    assert DecodeFreqs(data, FREQ_SYMBOLS) == all;
  }

  predicate V2Holds(b: seq<byte>, at: nat, h: Header, all: Option<seq<nat>>)
    requires at + 32 <= |b|
  {
    && h.nRawBytes == Num32(b, at + 4) && LiteralWord(Num64(b, at + 8), h) && StateWord(Num64(b, at + 16), h)
    && LmdWord(Num32(b, at + 28), h) && all.Some? && FourTables(all.value, h)
  }

  lemma {:induction false} FieldIs(v: nat, at: nat, w: nat)
    ensures Field(v, at, w) == v / Pow2(at) % Pow2(w)
  {
    ShrLowIsDivMod(v, at);
    ShrLowIsDivMod(Shr(v, at), w);
  }

  lemma Powers()
    ensures Pow2(0) == 1 && Pow2(3) == 8 && Pow2(10) == 1024 && Pow2(20) == 0x10_0000 && Pow2(30) == 0x4000_0000
    ensures Pow2(32) == 0x1_0000_0000 && Pow2(40) == 0x100_0000_0000 && Pow2(60) == 0x1000_0000_0000_0000
    ensures Pow2(42) == 0x400_0000_0000 && Pow2(52) == 0x10_0000_0000_0000
  {
    Pow2Big();
    Pow2Values();
    Pow2Add(20, 10);
    Pow2Add(40, 2);
    Pow2Add(42, 10);
  }

  lemma {:induction false} LiteralWordIs(w: nat, h: Header)
    ensures LiteralWord(w, h) <==>
      && h.nLiterals == Low(w, 20) && h.nLiteralPayloadBytes == Field(w, 20, 20) && h.nMatches == Field(w, 40, 20)
      && h.literalBits == Field(w, 60, 3) - 7
  {
    Powers();
    ShrLowIsDivMod(w, 20);
    FieldIs(w, 20, 20);
    FieldIs(w, 40, 20);
    FieldIs(w, 60, 3);
  }

  lemma {:induction false} StateWordIs(w: nat, h: Header)
    ensures StateWord(w, h) <==>
      && h.literalState == [Field(w, 0, 10), Field(w, 10, 10), Field(w, 20, 10), Field(w, 30, 10)]
      && h.nLMDPayloadBytes == Field(w, 40, 20) && h.lmdBits == Field(w, 60, 3) - 7
  {
    Powers();
    FieldIs(w, 0, 10);
    FieldIs(w, 10, 10);
    FieldIs(w, 20, 10);
    FieldIs(w, 30, 10);
    FieldIs(w, 40, 20);
    FieldIs(w, 60, 3);
    var st := h.literalState;
    if |st| == 4 { assert st == [st[0], st[1], st[2], st[3]]; }
  }

  lemma {:induction false} ShrTwice(x: nat, m: nat, n: nat)
    ensures Shr(x, m + n) == Shr(Shr(x, m), n)
  {
    if m == 0 {
    } else {
      ShrTwice(x / 2, m - 1, n);
    }
  }

  /** A word with this low half has the fields of its high half, 32 bits up. */
  lemma {:induction false} HighHalf(w: nat, size: nat, hi: nat)
    requires size < 4294967296 && w == size + 4294967296 * hi
    ensures Low(w, 32) == size && Field(w, 32, 10) == Field(hi, 0, 10)
    ensures Field(w, 42, 10) == Field(hi, 10, 10) && Field(w, 52, 10) == Field(hi, 20, 10)
  {
    Powers();
    ShrLowUnique(w, 32, hi, size);
    ShrTwice(w, 32, 10);
    ShrTwice(w, 32, 20);
  }

  lemma {:induction false} LmdWordIs(w: nat, h: Header)
    ensures LmdWord(w, h) <==>
      h.lState == Field(w, 0, 10) && h.mState == Field(w, 10, 10) && h.dState == Field(w, 20, 10)
  {
    Powers();
    FieldIs(w, 0, 10);
    FieldIs(w, 10, 10);
    FieldIs(w, 20, 10);
  }

  lemma {:induction false} UnpackIs(raw: nat, v0: nat, v1: nat, v2: nat, size: nat, hi: nat, all: seq<nat>, h: Header)
    requires |all| == 360 && size < 4294967296 && v2 == size + 4294967296 * hi
    ensures Unpack(raw, v0, v1, v2, all) == h <==>
      h.nRawBytes == raw && LiteralWord(v0, h) && StateWord(v1, h) && LmdWord(hi, h) && FourTables(all, h)
  {
    LiteralWordIs(v0, h);
    StateWordIs(v1, h);
    HighHalf(v2, size, hi);
    LmdWordIs(hi, h);
  }

  /** What a V2 header may declare. */
  predicate V2Limits(h: Header) {
    && h.nLiterals <= 40000 && h.nMatches <= 10000 && h.nLiterals % 4 == 0
    && h.lState < 64 && h.mState < 64 && h.dState < 256 && SumsFit(h)
  }

  /** No table has more states than there are. */
  predicate SumsFit(h: Header) {
    Sum(h.literalFreq) <= 1024 && Sum(h.lFreq) <= 64 && Sum(h.mFreq) <= 64 && Sum(h.dFreq) <= 256
  }

  lemma {:induction false} AcceptableIs(h: Header)
    ensures Acceptable(h) <==> V2Limits(h)
  {
    Pow2Values();
  }

  /** v2 is what the header at pos reads as. */
  ghost predicate HeaderReads(src: seq<byte>, pos: nat, v2: Option<V2>) {
    pos <= |src| && ReadsAs(src[pos..], v2)
  }

  ghost predicate ReadsAs(c: seq<byte>, v2: Option<V2>) {
    forall b: seq<byte> :: b == c ==> ReadV2Header(b) == v2
  }

  /** The parts of a V2 header: its size, the numbers in it and its tables. */
  ghost predicate V2Parts(b: seq<byte>, at: nat, lo: nat, hi: nat, all: Option<seq<nat>>) {
    && at + 32 <= |b| && lo == Num32(b, at + 24) && hi == Num32(b, at + 28) && 32 <= lo <= |b| - at
    && TablesReadAs(b[at + 32..at + lo], all) && (all.Some? ==> |all.value| == 360)
  }

  lemma {:induction false} FieldsOfParts(b: seq<byte>, at: nat, h: Header, size: nat, hi: nat, all: Option<seq<nat>>)
    requires V2Parts(b, at, size, hi, all)
    ensures V2Fields(b, at, h, size) <==> V2Holds(b, at, h, all)
  {
    if V2Fields(b, at, h, size) {
      var other :| TablesReadAs(b[at + 32..at + size], other) && V2Holds(b, at, h, other);
      TablesReadOnce(b[at + 32..at + size], all, other);
    }
  }

  /** u says whether the words of c and these tables unpack to h. */
  ghost predicate Unpacks(c: seq<byte>, all: Option<seq<nat>>, h: Header, u: bool) {
    |c| >= 32 && (all.Some? ==> |all.value| == 360) && forall d: seq<byte> :: d == c ==>
      (u <==> all.Some? && Unpack(LE(d[4..8]), LE(d[8..16]), LE(d[16..24]), LE(d[24..32]), all.value) == h)
  }

  lemma {:induction false} UnpackOfParts(b: seq<byte>, at: nat, h: Header, lo: nat, hi: nat, all: Option<seq<nat>>,
                                         c: seq<byte>) returns (u: bool)
    requires V2Parts(b, at, lo, hi, all) && c == b[at..]
    ensures Low(LE(c[24..32]), 32) == lo
    ensures Unpacks(c, all, h, u) && (V2Holds(b, at, h, all) <==> u)
  {
    u := V2Holds(b, at, h, all);
    Word32Is(b, at, 4);
    V2Words(b, at, c);
    HighHalf(LE(c[24..32]), lo, hi);
    if all.Some? {
      UnpackIs(Num32(b, at + 4), Num64(b, at + 8), Num64(b, at + 16), LE(c[24..32]), lo, hi, all.value, h);
    }
  }

  lemma {:induction false} ReadOfParts(b: seq<byte>, at: nat, h: Header, size: nat, lo: nat, hi: nat,
                                       all: Option<seq<nat>>, v2: Option<V2>)
    requires V2Parts(b, at, lo, hi, all) && HeaderReads(b, at, v2)
    ensures v2 == Some(V2(h, size)) <==> size == lo && Acceptable(h) && V2Holds(b, at, h, all)
  {
    var u := UnpackOfParts(b, at, h, lo, hi, all, b[at..]);
    assert b[at..][32..lo] == b[at + 32..at + lo];
    V2Tables(b[at..], lo, h, size, all, v2, u);
  }

  lemma {:induction false} NoParts(b: seq<byte>, at: nat, h: Header, size: nat, v2: Option<V2>)
    requires HeaderReads(b, at, v2) && (at + 32 <= |b| ==> !(32 <= Num32(b, at + 24) <= |b| - at))
    ensures !V2Fields(b, at, h, size) && v2.None?
  {
    if at + 32 <= |b| {
      V2Words(b, at, b[at..]);
      HighHalf(LE(b[at..][24..32]), Num32(b, at + 24), Num32(b, at + 28));
    }
    assert ReadV2Header(b[at..]) == v2;
  }

  lemma {:induction false} V2Reads(c: seq<byte>, lo: nat, all: Option<seq<nat>>, v2: Option<V2>)
    requires |c| >= 32 && Low(LE(c[24..32]), 32) == lo && 32 <= lo <= |c| && ReadsAs(c, v2)
    requires TablesReadAs(c[32..lo], all) && (all.Some? ==> |all.value| == 360)
    ensures v2 == if all.None? then None
                  else Verdict(Unpack(LE(c[4..8]), LE(c[8..16]), LE(c[16..24]), LE(c[24..32]), all.value), lo)
  {
    assert ReadV2Header(c) == v2;
    assert DecodeFreqs(c[32..lo], FREQ_SYMBOLS) == all;
  }

  lemma {:induction false} V2Tables(c: seq<byte>, lo: nat, h: Header, size: nat, all: Option<seq<nat>>,
                                    v2: Option<V2>, u: bool)
    requires Unpacks(c, all, h, u) && Low(LE(c[24..32]), 32) == lo && 32 <= lo <= |c| && ReadsAs(c, v2)
    requires TablesReadAs(c[32..lo], all)
    ensures v2 == Some(V2(h, size)) <==> size == lo && Acceptable(h) && u
  {
    V2Reads(c, lo, all, v2);
  }

  lemma {:induction false} TablesAt(data: seq<byte>) returns (all: Option<seq<nat>>)
    ensures TablesReadAs(data, all) && (all.Some? ==> |all.value| == 360)
  {
    all := DecodeFreqs(data, FREQ_SYMBOLS);
  }

  /** The fields a V2 header is read as, and the limits it is accepted under. */
  lemma {:induction false} V2FieldsRead(b: seq<byte>, at: nat, h: Header, size: nat, v2: Option<V2>)
    requires HeaderReads(b, at, v2)
    ensures V2Fields(b, at, h, size) && V2Limits(h) <==> v2 == Some(V2(h, size))
  {
    AcceptableIs(h);
    if at + 32 <= |b| && 32 <= Num32(b, at + 24) <= |b| - at {
      var lo, hi := Num32(b, at + 24), Num32(b, at + 28);
      var all := TablesAt(b[at + 32..at + lo]);
      FieldsOfParts(b, at, h, lo, hi, all);
      ReadOfParts(b, at, h, size, lo, hi, all, v2);
      assert V2Fields(b, at, h, size) ==> size == lo;
    } else {
      NoParts(b, at, h, size, v2);
    }
  }

  lemma {:induction false} V2Words(b: seq<byte>, at: nat, c: seq<byte>)
    requires at + 32 <= |b| && c == b[at..]
    ensures LE(c[8..16]) == Num64(b, at + 8) && LE(c[16..24]) == Num64(b, at + 16)
    ensures LE(c[24..32]) == Num32(b, at + 24) + 4294967296 * Num32(b, at + 28) && Num32(b, at + 24) < 4294967296
  {
    EightBytes(c, 8);
    EightBytes(c, 16);
    EightBytes(c, 24);
    NumsShift(b, at);
  }

  lemma {:induction false} NumsShift(b: seq<byte>, at: nat)
    requires at + 32 <= |b|
    ensures var c := b[at..];
      && Num64(c, 8) == Num64(b, at + 8) && Num64(c, 16) == Num64(b, at + 16)
      && Num64(c, 24) == Num32(b, at + 24) + 4294967296 * Num32(b, at + 28) && Num32(b, at + 24) < 4294967296
  {
  }

  // ---------------------------------------------------------------- blocks

  /** What the header of a block says. */
  datatype Frame =
    | StoredFrame(n: nat)
    | V1Frame(h: Header)
    | V2Frame(h: Header, size: nat)
    | LzvnFrame(raw: nat, payload: nat)

  /** Where the block's payload begins. */
  function BodyAt(pos: nat, f: Frame): nat {
    match f
    case StoredFrame(_) => pos + 8
    case V1Frame(_) => pos + 772
    case V2Frame(_, size) => pos + size
    case LzvnFrame(_, _) => pos + 12
  }

  function PayloadSize(f: Frame): nat {
    match f
    case StoredFrame(n) => n
    case V1Frame(h) => h.nLiteralPayloadBytes + h.nLMDPayloadBytes
    case V2Frame(h, _) => h.nLiteralPayloadBytes + h.nLMDPayloadBytes
    case LzvnFrame(_, payload) => payload
  }

  /** How many bytes the block declares to decode to. */
  function Declared(f: Frame): nat {
    match f
    case StoredFrame(n) => n
    case V1Frame(h) => h.nRawBytes
    case V2Frame(h, _) => h.nRawBytes
    case LzvnFrame(raw, _) => raw
  }

  function EndAt(pos: nat, f: Frame): nat {
    BodyAt(pos, f) + PayloadSize(f)
  }

  /** Every initial state is inside its table. */
  predicate StatesInside(h: Header) {
    && |h.literalState| == 4 && (forall i :: 0 <= i < 4 ==> h.literalState[i] < 1024)
    && h.lState < 64 && h.mState < 64 && h.dState < 256
  }

  /** No more raw bytes than the literals and matches can make. */
  predicate Producible(h: Header) {
    h.nRawBytes <= h.nLiterals + 2359 * h.nMatches
  }

  /** The bytes at a position are the header f of a block that lies wholly in the stream and declares nothing absurd. */
  ghost predicate Framed(src: seq<byte>, pos: nat, f: Frame) {
    EndAt(pos, f) <= |src| &&
    match f
    case StoredFrame(n) => Tag(src, pos, '-') && pos + 8 <= |src| && n == Num32(src, pos + 4)
    case V1Frame(h) =>
      && Tag(src, pos, '1') && V1Fields(src, pos, h) && h.nLiterals <= 40000 && h.nMatches <= 10000
      && Producible(h) && StatesInside(h)
    case V2Frame(h, size) =>
      Tag(src, pos, '2') && V2Fields(src, pos, h, size) && V2Limits(h) && Producible(h) && StatesInside(h)
    case LzvnFrame(raw, payload) =>
      && Tag(src, pos, 'n') && pos + 12 <= |src| && raw == Num32(src, pos + 4) && payload == Num32(src, pos + 8)
      && raw <= 136 * payload
  }

  /** The output and the tables after a block. */
  datatype Progress = Progress(out: seq<byte>, t: Tables)

  /**
   * p is what the payload of a block makes of the output so far and the tables an earlier block left, or None if it
   * does not decode.
   */
  ghost predicate Content(f: Frame, src: seq<byte>, pos: nat, out: seq<byte>, t: Tables, p: Option<Progress>)
    requires EndAt(pos, f) <= |src| && TablesOk(t)
  {
    match f
    case StoredFrame(n) => p == Some(Progress(out + src[pos + 8..pos + 8 + n], t))
    case V1Frame(h) => p == BlockContent(h, src, BodyAt(pos, f), out, t)
    case V2Frame(h, _) => p == BlockContent(h, src, BodyAt(pos, f), out, t)
    case LzvnFrame(raw, payload) => LzvnContent(src[pos + 12..pos + 12 + payload], raw, out, t, p)
  }

  ghost predicate LzvnContent(code: seq<byte>, raw: nat, out: seq<byte>, t: Tables, p: Option<Progress>) {
    forall n: nat :: n == raw ==> p == Appended(LzvnDecode.Decode(code, [], 0, n), out, t)
  }

  function Appended(bytes: Option<seq<byte>>, out: seq<byte>, t: Tables): Option<Progress> {
    if bytes.None? then None else Some(Progress(out + bytes.value, t))
  }

  ghost function BlockContent(h: Header, src: seq<byte>, at: nat, out: seq<byte>, t: Tables): Option<Progress>
    requires at + h.nLiteralPayloadBytes + h.nLMDPayloadBytes <= |src| && TablesOk(t)
  {
    if !SumsFit(h) || !HeaderOk(h) || !FreqsFit(h) then None
    else
      BuiltTablesOk(h, t);
      match DecodeBlock(h, src[..at + h.nLiteralPayloadBytes + h.nLMDPayloadBytes], at, out, BuildTables(h, t))
      case None => None
      case Some(bytes) => Some(Progress(bytes, BuildTables(h, t)))
  }

  // ---------------------------------------------------------------- one block at a time

  /** On to the end of the block, or a refusal. */
  function GoOn(end: nat, p: Option<Progress>): Step {
    match p
    case None => Stop(Invalid)
    case Some(Progress(out, t)) => Next(end, out, t)
  }

  /** The result of one turn, by the frame at the position. */
  ghost predicate Rule(src: seq<byte>, pos: nat, out: seq<byte>, t: Tables, maxOut: nat, r: Step)
    requires TablesOk(t)
  {
    && (Tag(src, pos, '$') ==> r == Stop(Decoded(out)))
    && (!Tag(src, pos, '$') && (forall f :: !Framed(src, pos, f)) ==> r == Stop(Invalid))
    && forall f :: Framed(src, pos, f) ==> FrameRule(f, src, pos, out, t, maxOut, r)
  }

  ghost predicate FrameRule(f: Frame, src: seq<byte>, pos: nat, out: seq<byte>, t: Tables, maxOut: nat, r: Step)
    requires EndAt(pos, f) <= |src| && TablesOk(t)
  {
    if |out| + Declared(f) > maxOut then r == Stop(TooLarge)
    else exists p :: Content(f, src, pos, out, t, p) && r == GoOn(EndAt(pos, f), p)
  }

  /** At most one frame fits the bytes, so one turn's result is settled by it. */
  lemma {:induction false} OnlyFrame(src: seq<byte>, pos: nat, out: seq<byte>, t: Tables, maxOut: nat, r: Step,
                                     f: Frame)
    requires TablesOk(t) && !Tag(src, pos, '$') && forall g :: Framed(src, pos, g) ==> g == f
    requires if Framed(src, pos, f) then FrameRule(f, src, pos, out, t, maxOut, r) else r == Stop(Invalid)
    ensures Rule(src, pos, out, t, maxOut, r)
  {
  }

  lemma {:induction false} StoredRule(src: seq<byte>, pos: nat, out: seq<byte>, t: Tables, maxOut: nat, r: Step)
    requires TablesOk(t) && Tag(src, pos, '-') && r == StoredStep(src, pos, out, t, maxOut)
    ensures Rule(src, pos, out, t, maxOut, r)
  {
    if pos + 8 <= |src| {
      FourBytes(src, pos + 4);
      var f := StoredFrame(Num32(src, pos + 4));
      if EndAt(pos, f) <= |src| {
        assert Content(f, src, pos, out, t, Some(Progress(out + src[pos + 8..pos + 8 + f.n], t)));
      }
      OnlyFrame(src, pos, out, t, maxOut, r, f);
    }
  }

  lemma {:induction false} LzvnRule(src: seq<byte>, pos: nat, out: seq<byte>, t: Tables, maxOut: nat, r: Step)
    requires TablesOk(t) && Tag(src, pos, 'n') && r == LzvnStep(src, pos, out, t, maxOut)
    ensures Rule(src, pos, out, t, maxOut, r)
  {
    if pos + 12 <= |src| {
      FourBytes(src, pos + 4);
      FourBytes(src, pos + 8);
      var f := LzvnFrame(Num32(src, pos + 4), Num32(src, pos + 8));
      LzvnStepChecks(src, pos, out, t, maxOut, f.raw, f.payload);
      LzvnFrameRule(f, src, pos, out, t, maxOut, r);
      OnlyFrame(src, pos, out, t, maxOut, r, f);
    }
  }

  lemma {:induction false} LzvnFrameRule(f: Frame, src: seq<byte>, pos: nat, out: seq<byte>, t: Tables, maxOut: nat,
                                         r: Step)
    requires TablesOk(t) && f.LzvnFrame? && pos + 12 <= |src|
    requires r == LzvnChecked(src, pos + 12, out, t, maxOut, f.raw, f.payload)
    ensures if EndAt(pos, f) <= |src| && f.raw <= 136 * f.payload
            then FrameRule(f, src, pos, out, t, maxOut, r) else r == Stop(Invalid)
  {
    if EndAt(pos, f) <= |src| && f.raw <= 136 * f.payload && |out| + f.raw <= maxOut {
      var code := src[pos + 12..pos + 12 + f.payload];
      var d := PayloadAnswer(code, f.raw);
      LzvnCheckedIs(src, pos + 12, out, t, maxOut, f.raw, f.payload, code, d);
      LzvnContentIs(code, f.raw, out, t, d);
      assert Content(f, src, pos, out, t, Appended(d, out, t));
    }
  }

  lemma {:induction false} PayloadAnswer(code: seq<byte>, raw: nat) returns (d: Option<seq<byte>>)
    ensures PayloadGives(code, raw, d)
  {
    d := LzvnDecode.Decode(code, [], 0, raw);
  }

  lemma {:induction false} LzvnContentIs(code: seq<byte>, raw: nat, out: seq<byte>, t: Tables, d: Option<seq<byte>>)
    requires PayloadGives(code, raw, d)
    ensures LzvnContent(code, raw, out, t, Appended(d, out, t))
  {
  }

  lemma {:induction false} HeaderOkIs(h: Header)
    requires |h.lFreq| == 20 && |h.mFreq| == 20 && |h.dFreq| == 64 && |h.literalFreq| == 256
    ensures HeaderOk(h) <==> StatesInside(h)
    ensures RawFits(h) <==> Producible(h) && StatesInside(h)
    ensures FreqsFit(h) <==> SumsFit(h)
  {
    Pow2Values();
  }

  /** The result of a block whose header has been read, by its checks. */
  ghost predicate BodyRule(h: Header, src: seq<byte>, at: nat, out: seq<byte>, t: Tables, maxOut: nat, r: Step)
    requires TablesOk(t)
  {
    var end := at + h.nLiteralPayloadBytes + h.nLMDPayloadBytes;
    r == if end > |src| || !Producible(h) || !StatesInside(h) then Stop(Invalid)
         else if |out| + h.nRawBytes > maxOut then Stop(TooLarge)
         else GoOn(end, BlockContent(h, src, at, out, t))
  }

  lemma {:induction false} CompressedRule(h: Header, src: seq<byte>, at: nat, out: seq<byte>, t: Tables, maxOut: nat,
                                          r: Step)
    requires |h.lFreq| == 20 && |h.mFreq| == 20 && |h.dFreq| == 64 && |h.literalFreq| == 256
    requires CompressedIs(h, src, at, out, t, maxOut, r)
    ensures BodyRule(h, src, at, out, t, maxOut, r)
  {
    HeaderOkIs(h);
    assert CompressedStep(h, src, at, out, t, maxOut) == r;
    if HeaderOk(h) && FreqsFit(h) { BuiltTablesOk(h, t); }
  }

  lemma {:induction false} V1Rule(src: seq<byte>, pos: nat, out: seq<byte>, t: Tables, maxOut: nat, r: Step)
    requires Tag(src, pos, '1') && TablesOk(t) && r == V1Step(src, pos, out, t, maxOut)
    ensures Rule(src, pos, out, t, maxOut, r)
  {
    if pos + 772 <= |src| {
      var h := ReadV1Header(src[pos..]);
      forall g | Framed(src, pos, g)
        ensures g == V1Frame(h)
      {
        V1FieldsRead(src, pos, g.h);
      }
      V1FieldsRead(src, pos, h);
      V1FrameRule(src, pos, out, t, maxOut, r, h);
      OnlyFrame(src, pos, out, t, maxOut, r, V1Frame(h));
    }
  }

  lemma {:induction false} V1FrameRule(src: seq<byte>, pos: nat, out: seq<byte>, t: Tables, maxOut: nat, r: Step,
                                       h: Header)
    requires Tag(src, pos, '1') && pos + 772 <= |src| && V1Fields(src, pos, h) && h == ReadV1Header(src[pos..])
    requires TablesOk(t) && r == V1Step(src, pos, out, t, maxOut)
    ensures if Framed(src, pos, V1Frame(h)) then FrameRule(V1Frame(h), src, pos, out, t, maxOut, r)
            else r == Stop(Invalid)
  {
    V1Checked(src, pos, out, t, maxOut, r, h);
    if h.nLiterals <= 40000 && h.nMatches <= 10000 {
      BodyIsFrame(V1Frame(h), h, src, pos, out, t, maxOut, r);
    }
  }

  lemma {:induction false} V1Checked(src: seq<byte>, pos: nat, out: seq<byte>, t: Tables, maxOut: nat, r: Step,
                                     h: Header)
    requires pos + 772 <= |src| && h == ReadV1Header(src[pos..])
    requires TablesOk(t) && r == V1Step(src, pos, out, t, maxOut)
    ensures if h.nLiterals > 40000 || h.nMatches > 10000 then r == Stop(Invalid)
            else BodyRule(h, src, pos + 772, out, t, maxOut, r)
  {
    V1Counts(src, pos, out, t, maxOut, r, h);
    if h.nLiterals <= 40000 && h.nMatches <= 10000 {
      CompressedRule(h, src, pos + 772, out, t, maxOut, r);
    }
  }

  lemma {:induction false} V1Counts(src: seq<byte>, pos: nat, out: seq<byte>, t: Tables, maxOut: nat, r: Step,
                                    h: Header)
    requires pos + 772 <= |src| && h == ReadV1Header(src[pos..])
    requires TablesOk(t) && r == V1Step(src, pos, out, t, maxOut)
    ensures if h.nLiterals > 40000 || h.nMatches > 10000 then r == Stop(Invalid)
            else CompressedIs(h, src, pos + 772, out, t, maxOut, r)
  {
  }

  /** A frame whose header was read follows the rule of its body. */
  lemma {:induction false} BodyIsFrame(f: Frame, h: Header, src: seq<byte>, pos: nat, out: seq<byte>, t: Tables,
                                       maxOut: nat, r: Step)
    requires TablesOk(t) && (f.V1Frame? || f.V2Frame?) && f.h == h
    requires BodyRule(h, src, BodyAt(pos, f), out, t, maxOut, r)
    ensures if EndAt(pos, f) <= |src| && Producible(h) && StatesInside(h)
            then FrameRule(f, src, pos, out, t, maxOut, r) else r == Stop(Invalid)
  {
    if EndAt(pos, f) <= |src| {
      assert Content(f, src, pos, out, t, BlockContent(h, src, BodyAt(pos, f), out, t));
    }
  }

  lemma {:induction false} V2Rule(src: seq<byte>, pos: nat, out: seq<byte>, t: Tables, maxOut: nat, r: Step,
                                  v2: Option<V2>)
    requires Tag(src, pos, '2') && HeaderReads(src, pos, v2) && AfterHeaderIs(v2, src, pos, out, t, maxOut, r)
    ensures Rule(src, pos, out, t, maxOut, r)
  {
    forall g | Framed(src, pos, g)
      ensures v2.Some? && g == V2Frame(v2.value.h, v2.value.size)
    {
      V2FieldsRead(src, pos, g.h, g.size, v2);
    }
    if v2.Some? {
      HeaderFramed(src, pos, v2.value.h, v2.value.size);
      HeaderSizes(src, pos, v2.value.h, v2.value.size);
      V2Body(v2.value.h, v2.value.size, src, pos, out, t, maxOut, r);
      OnlyFrame(src, pos, out, t, maxOut, r, V2Frame(v2.value.h, v2.value.size));
    } else {
      NoHeader(src, pos, out, t, maxOut, r);
    }
  }

  lemma {:induction false} NoHeader(src: seq<byte>, pos: nat, out: seq<byte>, t: Tables, maxOut: nat, r: Step)
    requires AfterHeaderIs(None, src, pos, out, t, maxOut, r)
    ensures r == Stop(Invalid)
  {
    assert AfterV2Header(None, src, pos, out, t, maxOut) == r;
  }

  lemma {:induction false} AfterHeader(h: Header, size: nat, src: seq<byte>, pos: nat, out: seq<byte>, t: Tables,
                                       maxOut: nat, r: Step)
    requires AfterHeaderIs(Some(V2(h, size)), src, pos, out, t, maxOut, r)
    ensures CompressedIs(h, src, pos + size, out, t, maxOut, r)
  {
    assert AfterV2Header(Some(V2(h, size)), src, pos, out, t, maxOut) == r;
  }

  lemma {:induction false} HeaderFramed(src: seq<byte>, pos: nat, h: Header, size: nat)
    requires Tag(src, pos, '2') && HeaderReads(src, pos, Some(V2(h, size)))
    ensures Framed(src, pos, V2Frame(h, size)) <==>
      EndAt(pos, V2Frame(h, size)) <= |src| && Producible(h) && StatesInside(h)
  {
    V2FieldsRead(src, pos, h, size, Some(V2(h, size)));
  }

  lemma {:induction false} HeaderSizes(src: seq<byte>, pos: nat, h: Header, size: nat)
    requires HeaderReads(src, pos, Some(V2(h, size)))
    ensures |h.lFreq| == 20 && |h.mFreq| == 20 && |h.dFreq| == 64 && |h.literalFreq| == 256
  {
    V2FieldsRead(src, pos, h, size, Some(V2(h, size)));
  }

  lemma {:induction false} V2Body(h: Header, size: nat, src: seq<byte>, pos: nat, out: seq<byte>, t: Tables,
                                  maxOut: nat, r: Step)
    requires |h.lFreq| == 20 && |h.mFreq| == 20 && |h.dFreq| == 64 && |h.literalFreq| == 256
    requires AfterHeaderIs(Some(V2(h, size)), src, pos, out, t, maxOut, r)
    ensures if EndAt(pos, V2Frame(h, size)) <= |src| && Producible(h) && StatesInside(h)
            then FrameRule(V2Frame(h, size), src, pos, out, t, maxOut, r) else r == Stop(Invalid)
  {
    AfterHeader(h, size, src, pos, out, t, maxOut, r);
    CompressedRule(h, src, pos + size, out, t, maxOut, r);
    BodyIsFrame(V2Frame(h, size), h, src, pos, out, t, maxOut, r);
  }

  lemma {:induction false} V2Start(src: seq<byte>, pos: nat, out: seq<byte>, t: Tables, maxOut: nat, r: Step)
      returns (v2: Option<V2>)
    requires pos <= |src| && TablesOk(t) && r == V2Step(src, pos, out, t, maxOut)
    ensures HeaderReads(src, pos, v2) && AfterHeaderIs(v2, src, pos, out, t, maxOut, r)
  {
    v2 := ReadV2Header(src[pos..]);
  }

  lemma {:induction false} StepRule(src: seq<byte>, pos: nat, out: seq<byte>, t: Tables, maxOut: nat, r: Step)
    requires pos < |src| && TablesOk(t) && r == DecodeStep(src, pos, out, t, maxOut)
    ensures Rule(src, pos, out, t, maxOut, r)
  {
    if pos + 4 <= |src| {
      TagIsKind(src, pos);
      match KindOf(LE(src[pos..pos + 4]))
      case Uncompressed => StoredRule(src, pos, out, t, maxOut, r);
      case CompressedV1 => V1Rule(src, pos, out, t, maxOut, r);
      case CompressedV2 =>
        var v2 := V2Start(src, pos, out, t, maxOut, r);
        V2Rule(src, pos, out, t, maxOut, r, v2);
      case CompressedLzvn => LzvnRule(src, pos, out, t, maxOut, r);
      case _ =>
    }
  }

  // ---------------------------------------------------------------- whole streams

  /** A block at pos that fits under the ceiling, and what its payload gives. */
  ghost predicate BlockAt(src: seq<byte>, pos: nat, out: seq<byte>, t: Tables, maxOut: nat, f: Frame,
                          p: Option<Progress>)
    requires TablesOk(t)
  {
    Framed(src, pos, f) && |out| + Declared(f) <= maxOut && Content(f, src, pos, out, t, p)
  }

  ghost predicate TooLargeAt(src: seq<byte>, pos: nat, out: seq<byte>, maxOut: nat, f: Frame) {
    Framed(src, pos, f) && |out| + Declared(f) > maxOut
  }

  /**
   * The stream from pos on gives r after out. At its end or at "bvx$" that is out; where no block stands it is
   * Invalid; a block that declares more than the ceiling leaves is TooLarge, one that does not decode Invalid, and
   * after any other the rest of the stream decides.
   */
  ghost predicate Reads(src: seq<byte>, pos: nat, out: seq<byte>, t: Tables, maxOut: nat, r: Outcome)
    requires TablesOk(t)
    decreases |src| - pos
  {
    if pos >= |src| || Tag(src, pos, '$') then r == Decoded(out)
    else
      || (r == Invalid && forall f :: !Framed(src, pos, f))
      || (r == TooLarge && exists f :: TooLargeAt(src, pos, out, maxOut, f))
      || (r == Invalid && exists f :: BlockAt(src, pos, out, t, maxOut, f, None))
      || exists f, q :: BlockAt(src, pos, out, t, maxOut, f, Some(q)) && TablesOk(q.t)
                        && Reads(src, EndAt(pos, f), q.out, q.t, maxOut, r)
  }

  lemma {:induction false} FrameUnique(src: seq<byte>, pos: nat, f: Frame, g: Frame)
    requires Framed(src, pos, f) && Framed(src, pos, g)
    ensures f == g
  {
    if f.V1Frame? && g.V1Frame? {
      V1FieldsRead(src, pos, f.h);
      V1FieldsRead(src, pos, g.h);
    } else if f.V2Frame? && g.V2Frame? {
      var v2 := ReadV2Header(src[pos..]);
      V2FieldsRead(src, pos, f.h, f.size, v2);
      V2FieldsRead(src, pos, g.h, g.size, v2);
    }
  }

  lemma {:induction false} ContentUnique(f: Frame, src: seq<byte>, pos: nat, out: seq<byte>, t: Tables,
                                         p: Option<Progress>, q: Option<Progress>)
    requires EndAt(pos, f) <= |src| && TablesOk(t)
    requires Content(f, src, pos, out, t, p) && Content(f, src, pos, out, t, q)
    ensures p == q && (p.Some? ==> TablesOk(p.value.t))
  {
    match f
    case StoredFrame(_) =>
    case V1Frame(h) => BlockTablesOk(h, src, BodyAt(pos, f), out, t);
    case V2Frame(h, _) => BlockTablesOk(h, src, BodyAt(pos, f), out, t);
    case LzvnFrame(raw, payload) =>
      var d := PayloadAnswer(src[pos + 12..pos + 12 + payload], raw);
      assert p == Appended(LzvnDecode.Decode(src[pos + 12..pos + 12 + payload], [], 0, raw), out, t);
  }

  lemma {:induction false} BlockTablesOk(h: Header, src: seq<byte>, at: nat, out: seq<byte>, t: Tables)
    requires at + h.nLiteralPayloadBytes + h.nLMDPayloadBytes <= |src| && TablesOk(t)
    ensures var p := BlockContent(h, src, at, out, t); p.Some? ==> TablesOk(p.value.t)
  {
    if HeaderOk(h) && FreqsFit(h) { BuiltTablesOk(h, t); }
  }

  /** What a stream gives, by the block at the position. */
  lemma {:induction false} ReadsBy(src: seq<byte>, pos: nat, out: seq<byte>, t: Tables, maxOut: nat, r: Outcome,
                                   f: Frame) returns (p: Option<Progress>)
    requires TablesOk(t) && pos < |src| && !Tag(src, pos, '$') && Framed(src, pos, f)
    requires Reads(src, pos, out, t, maxOut, r)
    ensures |out| + Declared(f) > maxOut ==> r == TooLarge
    ensures |out| + Declared(f) <= maxOut ==>
      && Content(f, src, pos, out, t, p)
      && (if p.None? then r == Invalid
          else TablesOk(p.value.t) && Reads(src, EndAt(pos, f), p.value.out, p.value.t, maxOut, r))
  {
    forall g | Framed(src, pos, g)
      ensures g == f
    {
      FrameUnique(src, pos, f, g);
    }
    p := None;
    if |out| + Declared(f) <= maxOut && !BlockAt(src, pos, out, t, maxOut, f, None) {
      var g, q :| BlockAt(src, pos, out, t, maxOut, g, Some(q)) && TablesOk(q.t)
                  && Reads(src, EndAt(pos, g), q.out, q.t, maxOut, r);
      p := Some(q);
    } else if |out| + Declared(f) <= maxOut {
      forall q | Content(f, src, pos, out, t, Some(q))
        ensures false
      {
        ContentUnique(f, src, pos, out, t, None, Some(q));
      }
    }
  }

  /** A stream gives one result. */
  lemma {:induction false} ReadsUnique(src: seq<byte>, pos: nat, out: seq<byte>, t: Tables, maxOut: nat, r: Outcome,
                                       r': Outcome)
    requires TablesOk(t) && Reads(src, pos, out, t, maxOut, r) && Reads(src, pos, out, t, maxOut, r')
    ensures r == r'
    decreases |src| - pos
  {
    if pos >= |src| || Tag(src, pos, '$') {
    } else if exists f :: Framed(src, pos, f) {
      var f :| Framed(src, pos, f);
      var p := ReadsBy(src, pos, out, t, maxOut, r, f);
      var p' := ReadsBy(src, pos, out, t, maxOut, r', f);
      if |out| + Declared(f) <= maxOut {
        ContentUnique(f, src, pos, out, t, p, p');
        if p.Some? { ReadsUnique(src, EndAt(pos, f), p.value.out, p.value.t, maxOut, r, r'); }
      }
    }
  }

  /** What the specification decodes is what the stream gives. */
  lemma {:induction false} DecodedReads(src: seq<byte>, pos: nat, out: seq<byte>, t: Tables, maxOut: nat)
    requires TablesOk(t)
    ensures Reads(src, pos, out, t, maxOut, DecodeStream(src, pos, out, t, maxOut))
    decreases |src| - pos
  {
    if pos >= |src| {
    } else {
      var r := DecodeStep(src, pos, out, t, maxOut);
      StepRule(src, pos, out, t, maxOut, r);
      if !Tag(src, pos, '$') && exists f :: Framed(src, pos, f) {
        var f :| Framed(src, pos, f);
        assert FrameRule(f, src, pos, out, t, maxOut, r);
        if |out| + Declared(f) > maxOut {
          assert TooLargeAt(src, pos, out, maxOut, f);
        } else {
          var p :| Content(f, src, pos, out, t, p) && r == GoOn(EndAt(pos, f), p);
          assert BlockAt(src, pos, out, t, maxOut, f, p);
          ContentUnique(f, src, pos, out, t, p, p);
          if p.Some? { DecodedReads(src, EndAt(pos, f), p.value.out, p.value.t, maxOut); }
        }
      }
    }
  }

  /** Decoding a stream, stated on its bytes alone. */
  lemma {:induction false} DecodesAsRead(src: seq<byte>, pos: nat, out: seq<byte>, t: Tables, maxOut: nat, r: Outcome)
    requires TablesOk(t)
    ensures DecodesTo(src, pos, out, t, maxOut, r) <==> Reads(src, pos, out, t, maxOut, r)
  {
    DecodedReads(src, pos, out, t, maxOut);
    var d := DecodeStream(src, pos, out, t, maxOut);
    if DecodesTo(src, pos, out, t, maxOut, r) {
      assert d == r;
    } else if Reads(src, pos, out, t, maxOut, r) {
      ReadsUnique(src, pos, out, t, maxOut, r, d);
    }
  }

  /** Blocks one after another, up to "bvx$" or the end of the stream. */
  ghost predicate WellFormed(src: seq<byte>, pos: nat)
    decreases |src| - pos
  {
    pos >= |src| || Tag(src, pos, '$') || exists f :: Framed(src, pos, f) && WellFormed(src, EndAt(pos, f))
  }

  /** Only a well-formed stream decodes to anything. */
  lemma {:induction false} OnlyWellFormed(src: seq<byte>, pos: nat, out: seq<byte>, t: Tables, maxOut: nat,
                                          bytes: seq<byte>)
    requires TablesOk(t) && Reads(src, pos, out, t, maxOut, Decoded(bytes))
    ensures WellFormed(src, pos)
    decreases |src| - pos
  {
    if pos >= |src| || Tag(src, pos, '$') {
    } else {
      var f, q :| BlockAt(src, pos, out, t, maxOut, f, Some(q)) && TablesOk(q.t)
                  && Reads(src, EndAt(pos, f), q.out, q.t, maxOut, Decoded(bytes));
      OnlyWellFormed(src, EndAt(pos, f), q.out, q.t, maxOut, bytes);
      assert Framed(src, pos, f) && WellFormed(src, EndAt(pos, f));
    }
  }

  /** A block keeps what was decoded and adds exactly the bytes it declares; an LZVN block may add fewer. */
  lemma {:induction false} BlockAdds(src: seq<byte>, pos: nat, out: seq<byte>, t: Tables, maxOut: nat, f: Frame,
                                     q: Progress)
    requires TablesOk(t) && BlockAt(src, pos, out, t, maxOut, f, Some(q))
    ensures out <= q.out && |q.out| <= |out| + Declared(f) && (!f.LzvnFrame? ==> |q.out| == |out| + Declared(f))
    ensures f.StoredFrame? ==> q.out == out + src[pos + 8..pos + 8 + f.n]
  {
    match f
    case StoredFrame(_) =>
    case V1Frame(h) => BlockAddsRaw(h, src, BodyAt(pos, f), out, t, q);
    case V2Frame(h, _) => BlockAddsRaw(h, src, BodyAt(pos, f), out, t, q);
    case LzvnFrame(raw, payload) =>
      LzvnAdds(src[pos + 12..pos + 12 + payload], raw, out, t, q);
  }

  lemma {:induction false} BlockAddsRaw(h: Header, src: seq<byte>, at: nat, out: seq<byte>, t: Tables, q: Progress)
    requires at + h.nLiteralPayloadBytes + h.nLMDPayloadBytes <= |src| && TablesOk(t)
    requires BlockContent(h, src, at, out, t) == Some(q)
    ensures out <= q.out && |q.out| == |out| + h.nRawBytes
  {
    BuiltTablesOk(h, t);
    BlockExtendsPrior(h, src[..at + h.nLiteralPayloadBytes + h.nLMDPayloadBytes], at, out, BuildTables(h, t));
  }

  lemma {:induction false} LzvnAdds(code: seq<byte>, raw: nat, out: seq<byte>, t: Tables, q: Progress)
    requires LzvnContent(code, raw, out, t, Some(q))
    ensures out <= q.out && |q.out| <= |out| + raw
  {
    LzvnDecode.DecodeExpansion(code, [], 0, raw);
    assert Some(q) == Appended(LzvnDecode.Decode(code, [], 0, raw), out, t);
  }
}
