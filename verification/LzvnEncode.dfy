/** The LZVN encoder as the code runs it: an object with a 4-way hash table of positions and words. */
module LzvnEncode {
  import opened Bits
  import opened LzvnDecode
  import opened LzvnEmit
  import opened LzvnSearch

  // ---------------------------------------------------------------- counting equal bytes with xor

  /** bits.TrailingZeros32 for x > 0. */
  function TrailingZeros(x: nat): nat
    requires x > 0
  {
    if x % 2 == 1 then 0 else 1 + TrailingZeros(x / 2)
  }

  function TrailingZeroBytes(x: nat): nat {
    if x == 0 then 4 else TrailingZeros(x) / 8
  }

  lemma {:induction false} TrailingZerosLow(x: nat, n: nat)
    requires x > 0 && n <= TrailingZeros(x)
    ensures Low(x, n) == 0
  {
    if n == 0 {
    } else {
      TrailingZerosLow(x / 2, n - 1);
    }
  }

  lemma {:induction false} LowZero(n: nat)
    ensures Low(0, n) == 0
  {
    if n == 0 {
    } else {
      LowZero(n - 1);
    }
  }

  /** Bytes reported equal are equal: n trailing zero bytes of the xor of two words mean n equal bytes. */
  lemma XorBytesAgree(src: seq<byte>, i: nat, j: nat, n: nat)
    requires i + 4 <= |src| && j + 4 <= |src|
    requires n <= TrailingZeroBytes(Xor(Load32(src, i), Load32(src, j))) && n <= 4
    ensures src[i..i + n] == src[j..j + n]
  {
    var a, b := src[i..i + 4], src[j..j + 4];
    var x := Xor(LE(a), LE(b));
    if x == 0 { LowZero(8 * n); } else { TrailingZerosLow(x, 8 * n); }
    XorLow(LE(a), LE(b), 8 * n);
    LEPrefix(a, n);
    LEPrefix(b, n);
    LEInjective(a[..n], b[..n]);
    SlicePrefix(src, i, n);
    SlicePrefix(src, j, n);
  }

  lemma {:induction false} XorSmall(a: nat, b: nat, n: nat)
    requires a < Pow2(n) && b < Pow2(n)
    ensures Xor(a, b) < Pow2(n)
  {
    if n == 0 {
    } else {
      XorSmall(a / 2, b / 2, n - 1);
    }
  }

  lemma {:induction false} TrailingZerosBound(x: nat, n: nat)
    requires 0 < x < Pow2(n)
    ensures TrailingZeros(x) < n
  {
    if x % 2 == 1 {
    } else {
      TrailingZerosBound(x / 2, n - 1);
    }
  }

  lemma AtMostFourBytes(src: seq<byte>, i: nat, j: nat)
    requires i + 4 <= |src| && j + 4 <= |src|
    ensures TrailingZeroBytes(Xor(Load32(src, i), Load32(src, j))) <= 4
  {
    LEBits(src[i..i + 4]);
    LEBits(src[j..j + 4]);
    var x := Xor(Load32(src, i), Load32(src, j));
    XorSmall(Load32(src, i), Load32(src, j), 32);
    if x > 0 { TrailingZerosBound(x, 32); }
  }

  lemma {:induction false} LowZeroTrailing(x: nat, n: nat)
    requires x > 0 && Low(x, n) == 0
    ensures TrailingZeros(x) >= n
  {
    if n == 0 {
    } else {
      LowZeroTrailing(x / 2, n - 1);
    }
  }

  lemma CommonPrefix(src: seq<byte>, i: nat, j: nat, n: nat)
    requires i + 4 <= |src| && j + 4 <= |src| && n <= 4
    ensures n <= Common(src, i, j) <==> src[i..i + n] == src[j..j + n]
  {
    var a, b := src[i..i + n], src[j..j + n];
    assert forall k :: 0 <= k < n ==> a[k] == src[i + k] && b[k] == src[j + k];
    if a == b {
      assert n > 0 ==> a[0] == b[0];
      assert n > 1 ==> a[1] == b[1];
      assert n > 2 ==> a[2] == b[2];
      assert n > 3 ==> a[3] == b[3];
    }
  }

  /** The trailing zero bytes of the xor of two words count exactly their equal leading bytes. */
  lemma XorCountsCommon(src: seq<byte>, i: nat, j: nat)
    requires i + 4 <= |src| && j + 4 <= |src|
    ensures TrailingZeroBytes(Xor(Load32(src, i), Load32(src, j))) == Common(src, i, j)
  {
    var x := Xor(Load32(src, i), Load32(src, j));
    var n, c := TrailingZeroBytes(x), Common(src, i, j);
    AtMostFourBytes(src, i, j);
    XorBytesAgree(src, i, j, n);
    CommonPrefix(src, i, j, n);
    CommonPrefix(src, i, j, c);
    EqualBytesXor(src, i, j, c);
    if x > 0 { LowZeroTrailing(x, 8 * c); }
  }

  lemma EqualBytesXor(src: seq<byte>, i: nat, j: nat, n: nat)
    requires i + 4 <= |src| && j + 4 <= |src| && n <= 4 && src[i..i + n] == src[j..j + n]
    ensures Low(Xor(Load32(src, i), Load32(src, j)), 8 * n) == 0
  {
    var a, b := src[i..i + 4], src[j..j + 4];
    SlicePrefix(src, i, n);
    SlicePrefix(src, j, n);
    LEPrefix(a, n);
    LEPrefix(b, n);
    XorLow(LE(a), LE(b), 8 * n);
  }

  lemma SlicePrefix(src: seq<byte>, i: nat, n: nat)
    requires i + 4 <= |src| && n <= 4
    ensures src[i..i + 4][..n] == src[i..i + n]
  {
  }

  method Nmatch4(src: seq<byte>, i: nat, j: nat) returns (n: nat)
    requires i + 4 <= |src| && j + 4 <= |src|
    ensures n == Common(src, i, j)
  {
    n := TrailingZeroBytes(Xor(Load32(src, i), Load32(src, j)));
    XorCountsCommon(src, i, j);
  }

  // ---------------------------------------------------------------- candidate matches

  method ExtendForward(src: seq<byte>, mEnd0: nat, D: nat, n0: nat) returns (mEnd: nat)
    requires D <= mEnd0 <= |src| && n0 <= 4
    ensures mEnd == Forward(src, mEnd0, D, n0) && mEnd0 <= mEnd
  {
    var n := n0;
    mEnd := mEnd0;
    while n == 4 && mEnd + 4 < |src|
      invariant mEnd0 <= mEnd <= |src|
      invariant Forward(src, mEnd, D, n) == Forward(src, mEnd0, D, n0)
      decreases |src| - mEnd, n
    {
      n := Nmatch4(src, mEnd, mEnd - D);
      mEnd := mEnd + n;
    }
  }

  method ExtendBack(src: seq<byte>, lBegin: nat, m0Begin0: nat, mBegin0: nat) returns (mBegin: nat)
    requires m0Begin0 < mBegin0 <= |src|
    ensures mBegin == Back(src, lBegin, mBegin0, mBegin0 - m0Begin0)
  {
    var D := mBegin0 - m0Begin0;
    var m0Begin := m0Begin0;
    mBegin := mBegin0;
    while m0Begin > 0 && mBegin > lBegin && src[mBegin - 1] == src[m0Begin - 1]
      invariant mBegin <= mBegin0 && m0Begin == mBegin - D
      invariant Back(src, lBegin, mBegin, D) == Back(src, lBegin, mBegin0, D)
      decreases mBegin
    {
      m0Begin := m0Begin - 1;
      mBegin := mBegin - 1;
    }
  }

  /** Extends a match of n known bytes forwards in 4-byte steps and backwards over pending literals. */
  method FindMatchN(src: seq<byte>, lBegin: nat, m0Begin0: nat, mBegin0: nat, n0: nat)
    returns (found: bool, m: MatchInfo)
    requires mBegin0 + 4 <= |src| && n0 <= 4
    ensures m == FindN(src, lBegin, m0Begin0, mBegin0, n0)
    ensures found <==> m.M != 0
  {
    m := NO_MATCH;
    if n0 < 3 { return false, m; }
    var D := mBegin0 - m0Begin0;
    if D <= 0 || D > MAX_DISTANCE { return false, m; }
    var mEnd := ExtendForward(src, mBegin0 + n0, D, n0);
    var mBegin := ExtendBack(src, lBegin, m0Begin0, mBegin0);
    var M := mEnd - mBegin;
    m := MatchInfo(mBegin, mEnd, M, D, if D < 0x600 then M - 2 else M - 3);
    return true, m;
  }

  // ---------------------------------------------------------------- the encoder

  datatype Entry = Entry(indices: seq<nat>, values: seq<nat>)

  /** An entry of the table: the positions of a bucket and the words found there. */
  ghost predicate EntryIs(src: seq<byte>, e: Entry, b: Bucket) {
    && e.indices == b && |e.values| == 4
    && forall k :: 0 <= k < 4 ==> b[k] + 4 <= |src| && e.values[k] == Load32(src, b[k])
  }

  /** dst is the code of the operations. */
  ghost predicate IsCode(dst: seq<byte>, ops: seq<Op>) {
    forall o: seq<Op> :: o == ops ==> dst == Code(o)
  }

  lemma LiteralAppends(dst: seq<byte>, ops: seq<Op>, p: seq<byte>)
    requires IsCode(dst, ops)
    ensures IsCode(dst + LiteralBytes(p), ops + [Literals(p)])
  {
    assert dst == Code(ops);
    assert Init(ops + [Literals(p)]) == ops;
  }

  lemma TripletAppends(dst: seq<byte>, ops: seq<Op>, p: seq<byte>, M: nat, D: nat, d: nat)
    requires IsCode(dst, ops) && LastD(ops) == d && 3 <= M && 1 <= D <= MAX_DISTANCE
    ensures IsCode(dst + LmdBytes(p, M, D, d), ops + [Triplet(p, M, D)])
  {
    assert dst == Code(ops);
    assert Init(ops + [Triplet(p, M, D)]) == ops;
  }

  class Encoder {
    const src: seq<byte>
    var srcLiteral: nat
    var srcCurrent: nat
    var srcCurrentEnd: nat
    var dst: seq<byte>
    var dPrev: nat
    var pending: MatchInfo
    var table: array<Entry>

    constructor (s: seq<byte>)
      ensures src == s && fresh(table) && table.Length == HASH_VALUES && srcCurrentEnd == 0
      ensures AtState(Initial())
    {
      src := s;
      srcLiteral, srcCurrent, srcCurrentEnd, dPrev := 0, 0, 0, 0;
      dst, pending := [], NO_MATCH;
      table := new Entry[HASH_VALUES](_ => Entry([0, 0, 0, 0], [0, 0, 0, 0]));
    }

    /** The object is at state s of the search, and has written the code of the operations so far. */
    ghost predicate AtState(s: State)
      reads this
    {
      && srcLiteral == s.lit && srcCurrent == s.pos && dPrev == s.dPrev && pending == s.pending
      && IsCode(dst, s.ops)
    }

    /** The table holds the positions of t and the words at them. */
    ghost predicate Holds(t: seq<Bucket>)
      reads this, table
    {
      && table.Length == HASH_VALUES == |t|
      && forall h :: 0 <= h < HASH_VALUES ==> EntryIs(src, table[h], t[h])
    }

    method EmitLiteral(L: nat)
      requires srcLiteral + L <= |src|
      modifies this`dst, this`srcLiteral
      ensures srcLiteral == old(srcLiteral) + L
      ensures dst == old(dst) + LiteralBytes(Slice(src, old(srcLiteral), old(srcLiteral) + L))
    {
      var p := src[srcLiteral..srcLiteral + L];
      dst := EmitLiteralBytes(p, dst);
      srcLiteral := srcLiteral + L;
    }

    method EmitMatch(m: MatchInfo)
      requires srcLiteral <= m.mBegin <= |src| && 3 <= m.M && 1 <= m.D <= MAX_DISTANCE
      modifies this`dst, this`srcLiteral, this`dPrev
      ensures srcLiteral == m.mEnd && dPrev == m.D
      ensures dst == old(dst) + LmdBytes(src[old(srcLiteral)..m.mBegin], m.M, m.D, old(dPrev))
    {
      var L := m.mBegin - srcLiteral;
      assert src[srcLiteral..][..L] == src[srcLiteral..m.mBegin];
      dst := EmitLMD(src[srcLiteral..], dst, L, m.M, m.D, dPrev);
      dPrev := m.D;
      srcLiteral := m.mEnd;
    }

    /** Emits a verified match, as an operation of the search. */
    method EmitVerified(m: MatchInfo, ghost s: State, ghost at: nat)
      requires AtState(s) && LastD(s.ops) == s.dPrev && Verified(src, m, s.lit, at)
      modifies this`dst, this`srcLiteral, this`dPrev
      ensures AtState(WithMatch(src, s, m))
    {
      TripletAppends(dst, s.ops, src[s.lit..m.mBegin], m.M, m.D, s.dPrev);
      EmitMatch(m);
    }

    /** Emits a literal run, as an operation of the search. */
    method EmitRun(L: nat, ghost s: State)
      requires AtState(s) && s.lit + L <= |src|
      modifies this`dst, this`srcLiteral
      ensures AtState(WithLiteral(src, s, L))
    {
      LiteralAppends(dst, s.ops, Slice(src, s.lit, s.lit + L));
      EmitLiteral(L);
    }

    method EmitPending(ghost s: State)
      requires AtState(s) && Ready(src, s) && pending.M != 0
      modifies this`dst, this`srcLiteral, this`dPrev
      ensures AtState(WithMatch(src, s, s.pending))
    {
      assert ParseOf(src, s.lit, s.ops, s.dPrev);
      ghost var at: nat :| at < s.pos && Verified(src, s.pending, s.lit, at);
      EmitVerified(pending, s, at);
    }

    /** The best of the four table candidates and the candidate at the previous distance. */
    method FindIncoming(e: Entry, vi: nat, ghost b: Bucket) returns (incoming: MatchInfo)
      requires EntryIs(src, e, b) && srcCurrent + 4 <= |src|
      requires vi == Load32(src, srcCurrent) && dPrev <= srcCurrent
      ensures incoming == Incoming(src, srcLiteral, srcCurrent, dPrev, b)
    {
      incoming := NO_MATCH;
      for k := 0 to 4
        invariant incoming == BestOf(src, srcLiteral, srcCurrent, b, k)
      {
        var nk := TrailingZeroBytes(Xor(vi, e.values[k]));
        XorCountsCommon(src, srcCurrent, e.indices[k]);
        var found, m1 := FindMatchN(src, srcLiteral, e.indices[k], srcCurrent, nk);
        if found {
          incoming := Better(incoming, m1);
        }
      }
      if dPrev != 0 {
        var n := Nmatch4(src, srcCurrent, srcCurrent - dPrev);
        var found, m1 := FindMatchN(src, srcLiteral, srcCurrent - dPrev, srcCurrent, n);
        if found {
          m1 := m1.(K := m1.M - 1);
          incoming := Better(incoming, m1);
        }
      }
    }

    /** The lazy rule: what to emit and what to keep pending at the current position. */
    method Decide(incoming: MatchInfo, ghost s: State)
      requires AtState(s) && Ready(src, s) && s.lit <= s.pos < |src|
      requires incoming.M == 0 || Verified(src, incoming, s.lit, s.pos)
      modifies this`dst, this`srcLiteral, this`dPrev, this`pending
      ensures AtState(Decided(src, s, incoming))
    {
      if incoming.M == 0 {
        if srcCurrent - srcLiteral >= MAX_BACKLOG {
          if pending.M != 0 {
            EmitPending(s);
            pending := NO_MATCH;
          } else {
            EmitRun(271, s);
          }
        }
        return;
      }
      if pending.M == 0 {
        pending := incoming;
      } else {
        if pending.mEnd <= incoming.mBegin {
          EmitPending(s);
          pending := incoming;
        } else {
          if incoming.K > pending.K {
            pending := incoming;
            assert ParseOf(src, s.lit, s.ops, s.dPrev);
            EmitVerified(pending, s.(pending := incoming), s.pos);
          } else {
            EmitPending(s);
          }
          pending := NO_MATCH;
        }
      }
    }

    /** Remembers the current position in its hash bucket. */
    method UpdateTable(h: nat, e: Entry, vi: nat, ghost t: seq<Bucket>)
      requires Holds(t) && srcCurrent + 4 <= |src| && vi == Load32(src, srcCurrent)
      requires h == Hash3(vi) && EntryIs(src, e, t[h])
      modifies table
      ensures Holds(Remember(src, t, srcCurrent))
    {
      var updated := Entry([srcCurrent, e.indices[0], e.indices[1], e.indices[2]],
                           [vi, e.values[0], e.values[1], e.values[2]]);
      assert EntryIs(src, updated, [srcCurrent, t[h][0], t[h][1], t[h][2]]);
      table[h] := updated;
    }

    method InitTable()
      requires 4 <= |src| && table.Length == HASH_VALUES
      modifies table
      ensures Holds(Initial().table)
    {
      var value := Load32(src, 0);
      var e := Entry([0, 0, 0, 0], [value, value, value, value]);
      for u := 0 to table.Length
        invariant forall h :: 0 <= h < u ==> table[h] == e
      {
        table[u] := e;
      }
    }

    /** The main loop: every position up to the margin. */
    method Encode(ghost s0: State)
      requires AtState(s0) && Holds(s0.table) && Valid(src, s0)
      requires srcCurrentEnd + MIN_MARGIN == |src| && srcCurrent <= srcCurrentEnd
      modifies this`dst, this`srcLiteral, this`dPrev, this`pending, this`srcCurrent, table
      ensures AtState(Run(src, s0, srcCurrentEnd))
    {
      ghost var s := s0;
      while srcCurrent < srcCurrentEnd
        invariant AtState(s) && Holds(s.table) && Valid(src, s) && srcCurrent <= srcCurrentEnd
        invariant Run(src, s, srcCurrentEnd) == Run(src, s0, srcCurrentEnd)
        decreases srcCurrentEnd - srcCurrent
      {
        s := Step(s);
      }
    }

    /** Finds and decides, unless the position lies inside an emitted match. */
    method Search(e: Entry, vi: nat, ghost s: State)
      requires AtState(s) && Valid(src, s) && srcCurrent < |src| - MIN_MARGIN
      requires EntryIs(src, e, BucketAt(src, s)) && vi == Load32(src, srcCurrent)
      modifies this`dst, this`srcLiteral, this`dPrev, this`pending
      ensures AtState(Considered(src, s))
    {
      if srcCurrent >= srcLiteral {
        ghost var b := BucketAt(src, s);
        IncomingVerified(src, s.lit, s.pos, s.dPrev, b);
        var incoming := FindIncoming(e, vi, b);
        Decide(incoming, s);
      }
    }

    /** One turn of the loop. */
    method Step(ghost s: State) returns (ghost s': State)
      requires AtState(s) && Holds(s.table) && Valid(src, s) && srcCurrent < |src| - MIN_MARGIN
      modifies this`dst, this`srcLiteral, this`dPrev, this`pending, this`srcCurrent, table
      ensures s' == Turn(src, s) && AtState(s') && Holds(s'.table) && Valid(src, s')
    {
      s' := Turn(src, s);
      TurnKeeps(src, s);
      var vi := Load32(src, srcCurrent);
      var h := Hash3(vi);
      var e := table[h];
      Search(e, vi, s);
      UpdateTable(h, e, vi, s.table);
      srcCurrent := srcCurrent + 1;
    }
  }

  /** Searches a source of at least 8 bytes. */
  method SearchAll(state: Encoder)
    requires state.AtState(Initial()) && state.table.Length == HASH_VALUES
    modifies state, state.table
    ensures state.AtState(Searched(state.src))
  {
    if |state.src| >= MIN_SRC_SIZE {
      state.srcCurrentEnd := |state.src| - MIN_MARGIN;
      state.InitTable();
      InitialValid(state.src);
      state.Encode(Initial());
    }
  }

  /** The literals after the last match. */
  method EmitRest(state: Encoder, ghost s: State)
    requires state.AtState(s) && s.lit <= |state.src|
    modifies state
    ensures IsCode(state.dst, WithRest(state.src, s))
  {
    var remaining := |state.src| - state.srcLiteral;
    if remaining > 0 {
      state.EmitRun(remaining, s);
    }
  }

  /** Compresses src to an LZVN stream: the code of the operations of its search, closed by the end opcode. */
  method EncodeBuffer(src: seq<byte>) returns (dst: seq<byte>)
    ensures dst == Code(EncodeOps(src)) + END_OF_STREAM
  {
    var state := new Encoder(src);
    SearchAll(state);
    SearchedEmitted(src);
    EmitRest(state, Searched(src));
    assert IsCode(state.dst, EncodeOps(src));
    dst := state.dst + END_OF_STREAM;
  }

  /** CompressLZVN then DecompressLZVN: the identity whenever every emitted literal run is at most 271 bytes. */
  method CompressThenDecompress(src: seq<byte>, maxOut: nat) returns (code: seq<byte>, ok: bool, out: seq<byte>)
    requires |src| <= maxOut
    ensures code == Code(EncodeOps(src)) + END_OF_STREAM
    ensures Decode(code, [], 0, maxOut) == if ok then Some(out) else None
    ensures ShortRuns(EncodeOps(src)) ==> ok && out == src
  {
    code := EncodeBuffer(src);
    EncodeOpsReplay(src);
    if ShortRuns(EncodeOps(src)) { StreamDecodes(EncodeOps(src), maxOut); }
    var dst := new byte[maxOut];
    var n;
    ok, n := DecodeBuffer(dst, code);
    out := dst[..n];
  }
}
