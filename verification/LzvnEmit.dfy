/** The LZVN opcode emitter, and why the interpreter undoes it. */
module LzvnEmit {
  import opened Bits
  import opened Lz
  import opened LzvnDecode

  const MAX_BACKLOG := 271

  const END_OF_STREAM: seq<byte> := [0x06, 0, 0, 0, 0, 0, 0, 0]

  // ---------------------------------------------------------------- what is emitted

  /** Literals on their own; the length byte is byte(L-16), which wraps once L exceeds 271. */
  function LiteralBytes(p: seq<byte>): seq<byte> {
    var L := |p|;
    if L > 15 then [0xE0, (L - 16) % 256] + p
    else if L > 0 then [0xE0 + L] + p
    else []
  }

  /** The literals sent ahead of a match opcode: all of them if there are more than 3. */
  function Ahead(p: seq<byte>): seq<byte> {
    if |p| > 3 then p else []
  }

  /** The literals carried by the match opcode itself. */
  function Carried(p: seq<byte>): (q: seq<byte>)
    ensures |q| <= 3
  {
    if |p| > 3 then [] else p
  }

  /** Match length the first opcode carries when it is not med_d. */
  function FirstLength(L: nat, M: nat): nat {
    if M < 10 - 2 * L then M else Max(10 - 2 * L, 0)
  }

  predicate UsesMedium(L: nat, M: nat, D: nat, dPrev: nat) {
    D != dPrev && 1536 <= D < 0x4000 && M > FirstLength(L, M) && M <= 34
  }

  /** Match length the first opcode carries. */
  function HeadLength(L: nat, M: nat, D: nat, dPrev: nat): nat {
    if UsesMedium(L, M, D, dPrev) then M else FirstLength(L, M)
  }

  /** The first match opcode with its q literals. */
  function HeadBytes(q: seq<byte>, M: nat, D: nat, dPrev: nat): seq<byte>
    requires |q| <= 3 && 3 <= M && 1 <= D < 0x1_0000
  {
    var L := |q|;
    var x := FirstLength(L, M) - 3;
    if D == dPrev then
      if L == 0 then [0xF0 + (x + 3)] else [L * 64 + x * 8 + 6] + q
    else if D < 1536 then [D / 256 + L * 64 + x * 8, D % 256] + q
    else if UsesMedium(L, M, D, dPrev) then
      [0xA0 + (M - 3) / 4 + L * 8, D % 64 * 4 + (M - 3) % 4, D / 64] + q
    else [L * 64 + x * 8 + 7, D % 256, D / 256] + q
  }

  /** Match-only opcodes for m further bytes at the distance just used. */
  function TailBytes(m: nat): seq<byte> {
    if m > 15 then
      var x2 := if m > 271 then 271 else m;
      [0xF0, x2 - 16] + TailBytes(m - x2)
    else if m > 0 then [0xF0 + m]
    else []
  }

  function LmdBytes(p: seq<byte>, M: nat, D: nat, dPrev: nat): seq<byte>
    requires 3 <= M && 1 <= D < 0x1_0000
  {
    LiteralBytes(Ahead(p)) + HeadBytes(Carried(p), M, D, dPrev)
      + TailBytes(M - HeadLength(|Carried(p)|, M, D, dPrev))
  }

  // ---------------------------------------------------------------- decoding it

  lemma {:induction false} LzCopyTwice(out: seq<byte>, d: nat, a: nat, b: nat)
    requires 1 <= d <= |out|
    ensures LzCopy(LzCopy(out, d, a), d, b) == LzCopy(out, d, a + b)
    decreases a
  {
    if a == 0 {
    } else {
      LzCopyTwice(out + [out[|out| - d]], d, a - 1, b);
    }
  }

  /**
   * Decoding code from (out, d) is decoding rest from (out', d'), whatever the output limit as long as out'
   * fits in it.
   */
  ghost predicate Yields(code: seq<byte>, out: seq<byte>, d: nat, rest: seq<byte>, out': seq<byte>, d': nat) {
    forall dEnd: nat :: |out'| <= dEnd ==> Decode(code, out, d, dEnd) == Decode(rest, out', d', dEnd)
  }

  lemma YieldsTransitive(code1: seq<byte>, out1: seq<byte>, d1: nat, code2: seq<byte>, out2: seq<byte>, d2: nat,
                         code3: seq<byte>, out3: seq<byte>, d3: nat)
    requires Yields(code1, out1, d1, code2, out2, d2) && Yields(code2, out2, d2, code3, out3, d3)
    requires |out2| <= |out3|
    ensures Yields(code1, out1, d1, code3, out3, d3)
  {
  }

  /** One opcode that does not stop or fail. */
  lemma StepYields(code: seq<byte>, out: seq<byte>, d: nat, used: nat, out': seq<byte>, d': nat)
    requires 1 <= used <= |code|
    requires forall dEnd: nat :: |out'| <= dEnd ==> OneStep(code, out, d, dEnd) == Next(used, out', d')
    ensures Yields(code, out, d, code[used..], out', d')
  {
    forall dEnd: nat | |out'| <= dEnd
      ensures Decode(code, out, d, dEnd) == Decode(code[used..], out', d', dEnd)
    {
      assert OneStep(code, out, d, dEnd) == Next(used, out', d');
    }
  }

  /** A literal run of at most 271 bytes is one literal opcode that decodes to itself. */
  lemma LiteralsDecode(p: seq<byte>, code: seq<byte>, rest: seq<byte>, out: seq<byte>, dPrev: nat)
    requires |p| <= MAX_BACKLOG && code == LiteralBytes(p) + rest
    ensures Yields(code, out, dPrev, rest, out + p, dPrev)
  {
    if |p| == 0 {
      assert code == rest && out + p == out;
    } else {
      var head := if |p| > 15 then 2 else 1;
      assert code[head..head + |p|] == p && code[head + |p|..] == rest;
      StepYields(code, out, dPrev, head + |p|, out + p, dPrev);
    }
  }

  /** How many literals the first opcode of an emitted run declares. */
  function DeclaredLength(code: seq<byte>): nat
    requires |code| >= 2 && code[0] >= 0xE0
  {
    if code[0] == 0xE0 then var b: nat := code[1]; b + 16 else var b: nat := code[0]; b - 0xE0
  }

  /** The opcode of an emitted run declares the run's real length exactly when the run is at most 271 bytes. */
  lemma LiteralHeaderExact(p: seq<byte>)
    requires p != []
    ensures |LiteralBytes(p)| >= 2 && LiteralBytes(p)[0] >= 0xE0
    ensures DeclaredLength(LiteralBytes(p)) == |p| <==> |p| <= MAX_BACKLOG
  {
  }

  lemma Fields(L: nat, x: nat, low: nat)
    requires L <= 3 && x <= 7 - 2 * L && low <= 7
    ensures var v := L * 64 + x * 8 + low;
            && v / 64 == L && v / 8 % 8 == x && v % 8 == low
            && v < 0xE0 && !(0xA0 <= v < 0xC0)
            && (L > 0 || low < 6 || low == 7 ==> v !in {0x06, 0x0E, 0x16})
  {
    var v := L * 64 + x * 8 + low;
    DivModUnique(v, 64, L, x * 8 + low);
    DivModUnique(v, 8, L * 8 + x, low);
    DivModUnique(L * 8 + x, 8, L, x);
  }

  ghost predicate ReadsBack(code: seq<byte>, at: nat, q: seq<byte>, M: nat, D: nat, dPrev: nat) {
    && code != [] && code[0] !in {0x06, 0x0E, 0x16} && code[0] < 0xE0
    && MatchOperands(code, dPrev) == Operands(at, |q|, HeadLength(|q|, M, D, dPrev), D)
  }

  lemma MediumReadsBack(q: seq<byte>, M: nat, D: nat, dPrev: nat, rest: seq<byte>)
    requires |q| <= 3 && 3 <= M && UsesMedium(|q|, M, D, dPrev)
    ensures ReadsBack(HeadBytes(q, M, D, dPrev) + rest, 3, q, M, D, dPrev)
  {
    var code := HeadBytes(q, M, D, dPrev) + rest;
    var opc: nat, b1: nat, x := code[0], code[1], M - 3;
    assert opc == 0xA0 + x / 4 + |q| * 8 && x / 4 <= 7 && b1 == D % 64 * 4 + x % 4;
    DivModUnique(opc, 8, 20 + |q|, x / 4);
    DivModUnique(20 + |q|, 4, 5, |q|);
    DivModUnique(b1, 4, D % 64, x % 4);
  }

  lemma RepeatReadsBack(q: seq<byte>, M: nat, D: nat, rest: seq<byte>)
    requires 1 <= |q| <= 3 && 3 <= M && 1 <= D < 0x1_0000
    ensures ReadsBack(HeadBytes(q, M, D, D) + rest, 1, q, M, D, D)
  {
    Fields(|q|, FirstLength(|q|, M) - 3, 6);
  }

  lemma ShortReadsBack(q: seq<byte>, M: nat, D: nat, dPrev: nat, rest: seq<byte>)
    requires |q| <= 3 && 3 <= M && 1 <= D < 1536 && D != dPrev
    ensures ReadsBack(HeadBytes(q, M, D, dPrev) + rest, 2, q, M, D, dPrev)
  {
    Fields(|q|, FirstLength(|q|, M) - 3, D / 256);
  }

  lemma LongReadsBack(q: seq<byte>, M: nat, D: nat, dPrev: nat, rest: seq<byte>)
    requires |q| <= 3 && 3 <= M && 1536 <= D < 0x1_0000 && D != dPrev && !UsesMedium(|q|, M, D, dPrev)
    ensures ReadsBack(HeadBytes(q, M, D, dPrev) + rest, 3, q, M, D, dPrev)
  {
    Fields(|q|, FirstLength(|q|, M) - 3, 7);
  }

  /** The opcode reads back: as a match-only opcode when it repeats a distance without literals. */
  ghost predicate HeadReadsBack(code: seq<byte>, q: seq<byte>, M: nat, D: nat, dPrev: nat)
    requires |q| <= 3 && 3 <= M && 1 <= D < 0x1_0000
  {
    if D == dPrev && q == [] then code != [] && 0xF0 < code[0] && code[0] == 0xF0 + HeadLength(0, M, D, dPrev)
    else ReadsBack(code, |HeadBytes(q, M, D, dPrev)| - |q|, q, M, D, dPrev)
  }

  /** The first match opcode never falls into another opcode class and reads back as its own fields. */
  lemma HeadOperands(q: seq<byte>, M: nat, D: nat, dPrev: nat, rest: seq<byte>)
    requires |q| <= 3 && 3 <= M && 1 <= D < 0x1_0000
    ensures HeadReadsBack(HeadBytes(q, M, D, dPrev) + rest, q, M, D, dPrev)
  {
    if D == dPrev && q == [] {
      assert HeadBytes(q, M, D, dPrev) == [0xF0 + FirstLength(0, M)];
    } else if UsesMedium(|q|, M, D, dPrev) {
      MediumReadsBack(q, M, D, dPrev, rest);
    } else if D == dPrev {
      RepeatReadsBack(q, M, D, rest);
    } else if D < 1536 {
      ShortReadsBack(q, M, D, dPrev, rest);
    } else {
      LongReadsBack(q, M, D, dPrev, rest);
    }
  }

  /** A match opcode carrying q literals takes the decoder over one match. */
  lemma OperandsYield(code: seq<byte>, at: nat, q: seq<byte>, x: nat, D: nat, dPrev: nat, out: seq<byte>)
    requires code != [] && code[0] !in {0x06, 0x0E, 0x16} && code[0] < 0xE0
    requires MatchOperands(code, dPrev) == Operands(at, |q|, x, D)
    requires 1 <= at && at + |q| <= |code| && code[at..at + |q|] == q && 1 <= D <= |out| + |q|
    ensures Yields(code, out, dPrev, code[at + |q|..], LzCopy(out + q, D, x), D)
  {
    StepYields(code, out, dPrev, at + |q|, LzCopy(out + q, D, x), D);
  }

  lemma RepeatYields(code: seq<byte>, used: nat, x: nat, D: nat, out: seq<byte>)
    requires code != [] && 1 <= D <= |out|
    requires || (used == 1 && 0xF0 < code[0] && code[0] == 0xF0 + x)
             || (used == 2 <= |code| && code[0] == 0xF0 && 16 <= x < 272 && code[1] == x - 16)
    ensures Yields(code, out, D, code[used..], LzCopy(out, D, x), D)
  {
    assert out + code[used..used] == out;
    StepYields(code, out, D, used, LzCopy(out, D, x), D);
  }

  lemma HeadDecodes(q: seq<byte>, M: nat, D: nat, dPrev: nat, rest: seq<byte>, out: seq<byte>)
    requires |q| <= 3 && 3 <= M && 1 <= D < 0x1_0000 && D <= |out| + |q|
    ensures Yields(HeadBytes(q, M, D, dPrev) + rest, out, dPrev,
                   rest, LzCopy(out + q, D, HeadLength(|q|, M, D, dPrev)), D)
  {
    var head := HeadBytes(q, M, D, dPrev);
    var code := head + rest;
    var x := HeadLength(|q|, M, D, dPrev);
    assert code[|head|..] == rest;
    HeadOperands(q, M, D, dPrev, rest);
    if D == dPrev && q == [] {
      assert out + q == out;
      RepeatYields(code, 1, x, D, out);
    } else {
      var at := |head| - |q|;
      assert code[at..at + |q|] == q;
      OperandsYield(code, at, q, x, D, dPrev, out);
    }
  }

  lemma {:induction false} TailDecodes(m: nat, D: nat, rest: seq<byte>, out: seq<byte>, final: seq<byte>)
    requires 1 <= D <= |out| && final == LzCopy(out, D, m)
    ensures Yields(TailBytes(m) + rest, out, D, rest, final, D)
    decreases m
  {
    var code := TailBytes(m) + rest;
    if m > 15 {
      var x2 := if m > 271 then 271 else m;
      var copied := LzCopy(out, D, x2);
      assert code[2..] == TailBytes(m - x2) + rest;
      RepeatYields(code, 2, x2, D, out);
      LzCopyTwice(out, D, x2, m - x2);
      TailDecodes(m - x2, D, rest, copied, final);
      YieldsTransitive(code, out, D, code[2..], copied, D, rest, final, D);
    } else if m > 0 {
      assert code[1..] == rest;
      RepeatYields(code, 1, m, D, out);
    } else {
      assert code == rest;
    }
  }

  /** What precedes the tail decodes to the match's first bytes; the tail decodes to the others. */
  lemma TailAfter(code: seq<byte>, out: seq<byte>, dPrev: nat, m: nat, D: nat, rest: seq<byte>, copied: seq<byte>,
                  final: seq<byte>)
    requires Yields(code, out, dPrev, TailBytes(m) + rest, copied, D)
    requires 1 <= D <= |copied| && final == LzCopy(copied, D, m)
    ensures Yields(code, out, dPrev, rest, final, D)
  {
    TailDecodes(m, D, rest, copied, final);
    YieldsTransitive(code, out, dPrev, TailBytes(m) + rest, copied, D, rest, final, D);
  }

  /** The match opcodes of a triplet: x bytes by the first, the others by the tail. */
  lemma MatchDecodes(q: seq<byte>, M: nat, D: nat, dPrev: nat, x: nat, rest: seq<byte>, out: seq<byte>,
                     final: seq<byte>)
    requires |q| <= 3 && 3 <= M && 1 <= D < 0x1_0000 && D <= |out| + |q| && x == HeadLength(|q|, M, D, dPrev)
    requires final == LzCopy(out + q, D, M)
    ensures Yields(HeadBytes(q, M, D, dPrev) + (TailBytes(M - x) + rest), out, dPrev, rest, final, D)
  {
    var tail := TailBytes(M - x) + rest;
    var code := HeadBytes(q, M, D, dPrev) + tail;
    LzCopyTwice(out + q, D, x, M - x);
    HeadDecodes(q, M, D, dPrev, tail, out);
    TailAfter(code, out, dPrev, M - x, D, rest, LzCopy(out + q, D, x), final);
  }

  /** A triplet's bytes: the literals sent ahead, the first match opcode, the tail. */
  lemma LmdShape(p: seq<byte>, M: nat, D: nat, dPrev: nat, rest: seq<byte>, out: seq<byte>, code: seq<byte>)
    requires 3 <= M && 1 <= D < 0x1_0000
    requires var q := Carried(p);
             code == HeadBytes(q, M, D, dPrev) + (TailBytes(M - HeadLength(|q|, M, D, dPrev)) + rest)
    ensures LmdBytes(p, M, D, dPrev) + rest == LiteralBytes(Ahead(p)) + code
    ensures out + p == out + Ahead(p) + Carried(p)
  {
  }

  /**
   * Opcode round trip: for every run of at most 271 literals, every match of at least 3 bytes at a distance
   * inside the output, and any previous distance, the emitted bytes decode to those literals and that copy,
   * and leave the decoder's previous distance at D.
   */
  lemma LmdDecodes(p: seq<byte>, M: nat, D: nat, dPrev: nat, rest: seq<byte>, out: seq<byte>, final: seq<byte>)
    requires |p| <= MAX_BACKLOG && 3 <= M && 1 <= D < 0x1_0000 && D <= |out| + |p|
    requires final == LzCopy(out + p, D, M)
    ensures Yields(LmdBytes(p, M, D, dPrev) + rest, out, dPrev, rest, final, D)
  {
    var q := Carried(p);
    var x := HeadLength(|q|, M, D, dPrev);
    var all := LmdBytes(p, M, D, dPrev) + rest;
    var code := HeadBytes(q, M, D, dPrev) + (TailBytes(M - x) + rest);
    var out1 := out + Ahead(p);
    LmdShape(p, M, D, dPrev, rest, out, code);
    LiteralsDecode(Ahead(p), all, code, out, dPrev);
    MatchDecodes(q, M, D, dPrev, x, rest, out1, final);
    YieldsTransitive(all, out, dPrev, code, out1, dPrev, rest, final, D);
  }

  // ---------------------------------------------------------------- the emitter as the code runs it

  /** Fields of an opcode occupy disjoint bits, so the code's `|` is `+` here. */
  method EmitLiteralBytes(p: seq<byte>, dst0: seq<byte>) returns (dst: seq<byte>)
    ensures dst == dst0 + LiteralBytes(p)
  {
    var L := |p|;
    dst := dst0;
    assert p[..L] == p;
    if L > 15 {
      SeqAssoc(dst, [0xE0, (L - 16) % 256], p);
      dst := dst + [0xE0, (L - 16) % 256];
      dst := dst + p[..L];
      return;
    }
    if L > 0 {
      SeqAssoc(dst, [0xE0 + L], p);
      dst := dst + [0xE0 + L];
      dst := dst + p[..L];
    }
  }

  method EmitLMD(src: seq<byte>, dst0: seq<byte>, L0: nat, M: nat, D: nat, dPrev: nat) returns (dst: seq<byte>)
    requires L0 <= |src| && 3 <= M && 1 <= D < 0x1_0000
    ensures dst == dst0 + LmdBytes(src[..L0], M, D, dPrev)
  {
    var lits, remaining;
    dst, lits := EmitAhead(src[..L0], dst0);
    dst, remaining := EmitHead(lits, dst, M, D, dPrev);
    dst := EmitTail(remaining, dst);
    ghost var a, h, t := LiteralBytes(Ahead(src[..L0])), HeadBytes(lits, M, D, dPrev), TailBytes(remaining);
    SeqAssoc(dst0, a, h);
    SeqAssoc(dst0, a + h, t);
  }

  /** Sends a literal run of more than 3 bytes ahead of the match opcode. */
  method EmitAhead(p: seq<byte>, dst0: seq<byte>) returns (dst: seq<byte>, lits: seq<byte>)
    ensures dst == dst0 + LiteralBytes(Ahead(p)) && lits == Carried(p)
  {
    var L := |p|;
    dst, lits := dst0, p;
    if L > 15 {
      dst := dst + ([0xE0, (L - 16) % 256] + lits);
      L, lits := 0, [];
    }
    if L > 3 {
      dst := dst + ([0xE0 + L] + lits);
      L, lits := 0, [];
    }
  }

  /** The first match opcode, and how many match bytes it leaves to emit. */
  method EmitHead(lits: seq<byte>, dst0: seq<byte>, M: nat, D: nat, dPrev: nat)
    returns (dst: seq<byte>, remaining: nat)
    requires |lits| <= 3 && 3 <= M && 1 <= D < 0x1_0000
    ensures dst == dst0 + HeadBytes(lits, M, D, dPrev)
    ensures HeadLength(|lits|, M, D, dPrev) + remaining == M
  {
    var L: nat := |lits|;
    var x := 10 - 2 * L;
    if M < x {
      x := M;
    }
    remaining := M - x;
    x := x - 3;
    if D == dPrev {
      if L == 0 {
        dst := dst0 + [0xF0 + (x + 3)];
      } else {
        dst := dst0 + ([L * 64 + x * 8 + 6] + lits);
      }
    } else if D < 2048 - 2 * 256 {
      dst := dst0 + ([D / 256 + L * 64 + x * 8, D % 256] + lits);
    } else if D >= 0x4000 || remaining == 0 || x + 3 + remaining > 34 {
      dst := dst0 + ([L * 64 + x * 8 + 7, D % 256, D / 256] + lits);
    } else {
      x := x + remaining;
      remaining := 0;
      dst := dst0 + ([0xA0 + x / 4 + L * 8, D % 64 * 4 + x % 4, D / 64] + lits);
    }
  }

  /** The closing loop: as many 271-byte repeats as fit, then the rest. */
  method EmitTail(m: nat, dst0: seq<byte>) returns (dst: seq<byte>)
    ensures dst == dst0 + TailBytes(m)
  {
    var remaining: nat := m;
    dst := dst0;
    while remaining > 15
      invariant dst + TailBytes(remaining) == dst0 + TailBytes(m)
    {
      var x2: nat := remaining;
      if x2 > 271 {
        x2 := 271;
      }
      ghost var was := dst;
      dst := dst + [0xF0, x2 - 16];
      assert was + TailBytes(remaining) == dst + TailBytes(remaining - x2);
      remaining := remaining - x2;
    }
    if remaining > 0 {
      dst := dst + [0xF0 + remaining];
    }
  }

  // ---------------------------------------------------------------- sequences of operations

  /** One emission: a literal run, or a triplet of literals and a match. */
  datatype Op = Literals(p: seq<byte>) | Triplet(p: seq<byte>, M: nat, D: nat)

  function Init(ops: seq<Op>): seq<Op>
    requires ops != []
  {
    ops[..|ops| - 1]
  }

  function Last(ops: seq<Op>): Op
    requires ops != []
  {
    ops[|ops| - 1]
  }

  /** The distance of the last match, 0 if there was none. */
  function LastD(ops: seq<Op>): nat {
    if ops == [] then 0 else if Last(ops).Triplet? then Last(ops).D else LastD(Init(ops))
  }

  function OpBytes(op: Op, dPrev: nat): seq<byte> {
    match op
    case Literals(p) => LiteralBytes(p)
    case Triplet(p, M, D) => if 3 <= M && 1 <= D < 0x1_0000 then LmdBytes(p, M, D, dPrev) else []
  }

  /** The opcode stream of a list of operations. */
  function Code(ops: seq<Op>): seq<byte> {
    if ops == [] then [] else Code(Init(ops)) + OpBytes(Last(ops), LastD(Init(ops)))
  }

  /** What the operations mean: append literals, then copy the match. */
  function Replay(ops: seq<Op>): seq<byte> {
    if ops == [] then []
    else
      var out := Replay(Init(ops)) + Last(ops).p;
      if Last(ops).Triplet? && 1 <= Last(ops).D <= |out| then LzCopy(out, Last(ops).D, Last(ops).M) else out
  }

  /** Matches are at least 3 bytes and reach at most 65535 back, never before the start. */
  ghost predicate ValidOps(ops: seq<Op>) {
    ops == [] ||
    (&& ValidOps(Init(ops))
     && (Last(ops).Triplet? ==>
           && 3 <= Last(ops).M && 1 <= Last(ops).D < 0x1_0000
           && Last(ops).D <= |Replay(Init(ops))| + |Last(ops).p|))
  }

  ghost predicate ShortRuns(ops: seq<Op>) {
    forall op <- ops :: |op.p| <= MAX_BACKLOG
  }

  lemma OpDecodes(op: Op, d: nat, code: seq<byte>, rest: seq<byte>, out: seq<byte>, final: seq<byte>, d': nat)
    requires |op.p| <= MAX_BACKLOG && code == OpBytes(op, d) + rest
    requires op.Triplet? ==> 3 <= op.M && 1 <= op.D < 0x1_0000 && op.D <= |out| + |op.p|
    requires final == if op.Triplet? then LzCopy(out + op.p, op.D, op.M) else out + op.p
    requires d' == if op.Triplet? then op.D else d
    ensures Yields(code, out, d, rest, final, d')
  {
    if op.Literals? {
      LiteralsDecode(op.p, code, rest, out, d);
    } else {
      LmdDecodes(op.p, op.M, op.D, d, rest, out, final);
    }
  }

  /** Every list of valid operations whose literal runs are at most 271 bytes decodes to its replay. */
  lemma {:induction false} OpsDecode(ops: seq<Op>, rest: seq<byte>, code: seq<byte>)
    requires ValidOps(ops) && ShortRuns(ops) && code == Code(ops) + rest
    ensures Yields(code, [], 0, rest, Replay(ops), LastD(ops))
  {
    if ops == [] {
      assert code == rest;
    } else {
      var op := Last(ops);
      assert op in ops && forall o <- Init(ops) :: o in ops;
      var d, out, final := LastD(Init(ops)), Replay(Init(ops)), Replay(ops);
      var mid := OpBytes(op, d) + rest;
      SeqAssoc(Code(Init(ops)), OpBytes(op, d), rest);
      OpsDecode(Init(ops), mid, code);
      OpDecodes(op, d, mid, rest, out, final, LastD(ops));
      YieldsTransitive(code, [], 0, mid, out, d, rest, final, LastD(ops));
    }
  }

  /** A whole stream, closed by the end-of-stream opcode, decodes to the replay of its operations. */
  lemma StreamDecodes(ops: seq<Op>, dEnd: nat)
    requires ValidOps(ops) && ShortRuns(ops) && |Replay(ops)| <= dEnd
    ensures Decode(Code(ops) + END_OF_STREAM, [], 0, dEnd) == Some(Replay(ops))
  {
    OpsDecode(ops, END_OF_STREAM, Code(ops) + END_OF_STREAM);
  }

  // ---------------------------------------------------------------- how much the code expands to

  lemma {:induction false} TailCovers(m: nat)
    ensures m <= MAX_EXPANSION * |TailBytes(m)|
  {
    if m > 15 { TailCovers(m - if m > 271 then 271 else m); }
  }

  lemma OpCovers(op: Op, d: nat)
    requires op.Triplet? ==> 3 <= op.M && 1 <= op.D < 0x1_0000
    ensures |op.p| + (if op.Triplet? then op.M else 0) <= MAX_EXPANSION * |OpBytes(op, d)|
  {
    if op.Triplet? {
      var q := Carried(op.p);
      TailCovers(op.M - HeadLength(|q|, op.M, op.D, d));
      assert |HeadBytes(q, op.M, op.D, d)| >= 1 + |q|;
    }
  }

  /** The code of any valid operations, long runs included, passes the decoder's expansion check. */
  lemma {:induction false} CodeCovers(ops: seq<Op>)
    requires ValidOps(ops)
    ensures |Replay(ops)| <= MAX_EXPANSION * |Code(ops)|
  {
    if ops == [] {
    } else {
      CodeCovers(Init(ops));
      OpCovers(Last(ops), LastD(Init(ops)));
    }
  }
}
