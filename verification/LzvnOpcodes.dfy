/** The LZVN opcodes from their bit fields, whoever wrote them: what the interpreter does with each. */
module LzvnOpcodes {
  import opened Bits
  import opened Lz
  import opened LzvnDecode
  import opened LzvnEmit

  // ---------------------------------------------------------------- the opcodes

  /** Every opcode with its fields: literal count L, match length M, distance D. */
  datatype Opcode =
    | EndOfStream
    | Nop(second: bool)
    | SmallLiterals(L: nat)
    | LargeLiterals(L: nat)
    | SmallMatch(M: nat)
    | LargeMatch(M: nat)
    | SmallDistance(L: nat, M: nat, D: nat)
    | MediumDistance(L: nat, M: nat, D: nat)
    | LargeDistance(L: nat, M: nat, D: nat)
    | PreviousDistance(L: nat, M: nat)

  /** The values the fields of an opcode can hold. */
  predicate InRange(op: Opcode) {
    match op
    case EndOfStream => true
    case Nop(_) => true
    case SmallLiterals(L) => 1 <= L <= 15
    case LargeLiterals(L) => 16 <= L <= 271
    case SmallMatch(M) => 1 <= M <= 15
    case LargeMatch(M) => 16 <= M <= 271
    case SmallDistance(L, M, D) => L <= 3 && 3 <= M <= 10 && D < 1536 && L * 64 + (M - 3) * 8 + D / 256 < 224
                                   && !(160 <= L * 64 + (M - 3) * 8 + D / 256 < 192)
    case MediumDistance(L, M, D) => L <= 3 && 3 <= M <= 34 && D < 16384
    case LargeDistance(L, M, D) => L <= 3 && 3 <= M <= 10 && D < 65536 && L * 64 + (M - 3) * 8 + 7 < 224
                                   && !(160 <= L * 64 + (M - 3) * 8 + 7 < 192)
    case PreviousDistance(L, M) => L <= 3 && 3 <= M <= 10 && L * 64 + (M - 3) * 8 + 6 < 224
                                   && !(160 <= L * 64 + (M - 3) * 8 + 6 < 192) && !(L == 0 && M <= 5)
  }

  /**
   * The opcode's own bytes. 00000110 ends the stream, 00001110 and 00010110 do nothing; then 1110LLLL and
   * 11100000 LLLLLLLL, 1111MMMM and 11110000 MMMMMMMM, LLMMMDDD DDDDDDDD, 101LLMMM DDDDDDMM DDDDDDDD,
   * LLMMM111 DDDDDDDD DDDDDDDD and LLMMM110.
   */
  function Head(op: Opcode): seq<byte>
    requires InRange(op)
  {
    match op
    case EndOfStream => [6]
    case Nop(second) => if second then [22] else [14]
    case SmallLiterals(L) => [224 + L]
    case LargeLiterals(L) => [224, L - 16]
    case SmallMatch(M) => [240 + M]
    case LargeMatch(M) => [240, M - 16]
    case SmallDistance(L, M, D) => [L * 64 + (M - 3) * 8 + D / 256, D % 256]
    case MediumDistance(L, M, D) => [160 + L * 8 + (M - 3) / 4, D % 64 * 4 + (M - 3) % 4, D / 64]
    case LargeDistance(L, M, D) => [L * 64 + (M - 3) * 8 + 7, D % 256, D / 256]
    case PreviousDistance(L, M) => [L * 64 + (M - 3) * 8 + 6]
  }

  /** How many literals follow the opcode's own bytes. */
  function LiteralCount(op: Opcode): nat {
    if op.EndOfStream? || op.Nop? || op.SmallMatch? || op.LargeMatch? then 0 else op.L
  }

  /** Literals q, then M bytes from D back, if they fit and D lies in the output. */
  function MatchEffect(used: nat, q: seq<byte>, M: nat, D: nat, out: seq<byte>, dEnd: nat): Step {
    if 1 <= D <= |out| + |q| && |out| + |q| + M <= dEnd then Next(used, LzCopy(out + q, D, M), D) else Fail
  }

  /** What an opcode with its literals q does to the output and to the previous distance. */
  function Effect(op: Opcode, used: nat, q: seq<byte>, out: seq<byte>, dPrev: nat, dEnd: nat): Step {
    match op
    case EndOfStream => Stop
    case Nop(_) => Next(used, out, dPrev)
    case SmallLiterals(_) => if |out| + |q| <= dEnd then Next(used, out + q, dPrev) else Fail
    case LargeLiterals(_) => if |out| + |q| <= dEnd then Next(used, out + q, dPrev) else Fail
    case SmallMatch(M) => MatchEffect(used, [], M, dPrev, out, dEnd)
    case LargeMatch(M) => MatchEffect(used, [], M, dPrev, out, dEnd)
    case SmallDistance(_, M, D) => MatchEffect(used, q, M, D, out, dEnd)
    case MediumDistance(_, M, D) => MatchEffect(used, q, M, D, out, dEnd)
    case LargeDistance(_, M, D) => MatchEffect(used, q, M, D, out, dEnd)
    case PreviousDistance(_, M) => MatchEffect(used, q, M, dPrev, out, dEnd)
  }

  // ---------------------------------------------------------------- every opcode does its effect

  /** A literal-and-match opcode's operands decide its step. */
  lemma OperandsStep(code: seq<byte>, at: nat, q: seq<byte>, M: nat, D: nat, out: seq<byte>, dPrev: nat, dEnd: nat)
    requires code != [] && code[0] < 0xE0 && code[0] !in {0x06, 0x0E, 0x16}
    requires MatchOperands(code, dPrev) == Operands(at, |q|, M, D)
    requires at + |q| <= |code| && code[at..at + |q|] == q
    ensures OneStep(code, out, dPrev, dEnd) == MatchEffect(at + |q|, q, M, D, out, dEnd)
  {
  }

  /** The fields of a first byte LLMMMlow. */
  lemma FirstByte(L: nat, x: nat, low: nat)
    requires L <= 3 && x <= 7 && low <= 7
    ensures var v := L * 64 + x * 8 + low; v / 64 == L && v / 8 % 8 == x && v % 8 == low
  {
    var v := L * 64 + x * 8 + low;
    DivModUnique(v, 64, L, x * 8 + low);
    DivModUnique(v, 8, L * 8 + x, low);
    DivModUnique(L * 8 + x, 8, L, x);
  }

  lemma SmallOperands(op: Opcode, code: seq<byte>, dPrev: nat)
    requires op.SmallDistance? && InRange(op) && |code| >= 2 && code[..2] == Head(op)
    ensures code[0] < 0xE0 && code[0] !in {0x06, 0x0E, 0x16}
    ensures MatchOperands(code, dPrev) == Operands(2, op.L, op.M, op.D)
  {
    assert code[0] == code[..2][0] && code[1] == code[..2][1];
    FirstByte(op.L, op.M - 3, op.D / 256);
    DivMod(op.D, 256);
  }

  lemma LargeOperands(op: Opcode, code: seq<byte>, dPrev: nat)
    requires op.LargeDistance? && InRange(op) && |code| >= 3 && code[..3] == Head(op)
    ensures code[0] < 0xE0 && code[0] !in {0x06, 0x0E, 0x16}
    ensures MatchOperands(code, dPrev) == Operands(3, op.L, op.M, op.D)
  {
    assert code[0] == code[..3][0] && code[1] == code[..3][1] && code[2] == code[..3][2];
    FirstByte(op.L, op.M - 3, 7);
    DivMod(op.D, 256);
  }

  lemma PreviousOperands(op: Opcode, code: seq<byte>, dPrev: nat)
    requires op.PreviousDistance? && InRange(op) && |code| >= 1 && code[..1] == Head(op)
    ensures code[0] < 0xE0 && code[0] !in {0x06, 0x0E, 0x16}
    ensures MatchOperands(code, dPrev) == Operands(1, op.L, op.M, dPrev)
  {
    assert code[0] == code[..1][0];
    FirstByte(op.L, op.M - 3, 6);
  }

  lemma MediumOperands(op: Opcode, code: seq<byte>, dPrev: nat)
    requires op.MediumDistance? && InRange(op) && |code| >= 3 && code[..3] == Head(op)
    ensures code[0] < 0xE0 && code[0] !in {0x06, 0x0E, 0x16}
    ensures MatchOperands(code, dPrev) == Operands(3, op.L, op.M, op.D)
  {
    assert code[0] == code[..3][0] && code[1] == code[..3][1] && code[2] == code[..3][2];
    var opc: nat, b1: nat, x: nat := code[0], code[1], op.M - 3;
    DivMod(x, 4);
    DivMod(op.D, 64);
    DivModUnique(opc, 8, 20 + op.L, x / 4);
    DivModUnique(20 + op.L, 4, 5, op.L);
    DivModUnique(b1, 4, op.D % 64, x % 4);
  }

  lemma HeadInPlace(h: seq<byte>, q: seq<byte>, rest: seq<byte>, code: seq<byte>)
    requires code == h + q + rest
    ensures |code| >= |h| + |q| && code[..|h|] == h && code[|h|..|h| + |q|] == q && code[|h| + |q|..] == rest
  {
  }

  lemma LiteralStep(h: seq<byte>, q: seq<byte>, code: seq<byte>, out: seq<byte>, dPrev: nat, dEnd: nat)
    requires (h == [224 + |q|] && 1 <= |q| <= 15) || (16 <= |q| <= 271 && h == [224, |q| - 16])
    requires |code| >= |h| + |q| && code[..|h|] == h && code[|h|..|h| + |q|] == q
    ensures OneStep(code, out, dPrev, dEnd)
            == if |out| + |q| <= dEnd then Next(|h| + |q|, out + q, dPrev) else Fail
  {
    assert code[0] == code[..|h|][0] && (|h| > 1 ==> code[1] == code[..|h|][1]);
  }

  lemma RepeatStep(h: seq<byte>, M: nat, code: seq<byte>, out: seq<byte>, dPrev: nat, dEnd: nat)
    requires (h == [240 + M] && 1 <= M <= 15) || (16 <= M <= 271 && h == [240, M - 16])
    requires |code| >= |h| && code[..|h|] == h
    ensures OneStep(code, out, dPrev, dEnd) == MatchEffect(|h|, [], M, dPrev, out, dEnd)
  {
    assert code[0] == code[..|h|][0] && (|h| > 1 ==> code[1] == code[..|h|][1]);
    assert code[|h|..|h| + 0] == [];
  }

  /**
   * The interpreter does exactly the effect of every opcode, for every value of its fields, whether the emitter
   * would write it or not.
   */
  lemma OpcodeStep(op: Opcode, q: seq<byte>, rest: seq<byte>, code: seq<byte>, out: seq<byte>, dPrev: nat, dEnd: nat)
    requires InRange(op) && |q| == LiteralCount(op) && code == Head(op) + q + rest
    ensures code != [] && OneStep(code, out, dPrev, dEnd) == Effect(op, |Head(op)| + |q|, q, out, dPrev, dEnd)
  {
    var h := Head(op);
    HeadInPlace(h, q, rest, code);
    match op
    case EndOfStream => assert code[0] == h[0];
    case Nop(_) => assert code[0] == h[0];
    case SmallDistance(_, M, D) =>
      SmallOperands(op, code, dPrev);
      OperandsStep(code, 2, q, M, D, out, dPrev, dEnd);
    case MediumDistance(_, M, D) =>
      MediumOperands(op, code, dPrev);
      OperandsStep(code, 3, q, M, D, out, dPrev, dEnd);
    case LargeDistance(_, M, D) =>
      LargeOperands(op, code, dPrev);
      OperandsStep(code, 3, q, M, D, out, dPrev, dEnd);
    case PreviousDistance(_, M) =>
      PreviousOperands(op, code, dPrev);
      OperandsStep(code, 1, q, M, dPrev, out, dPrev, dEnd);
    case SmallLiterals(_) => LiteralStep(h, q, code, out, dPrev, dEnd);
    case LargeLiterals(_) => LiteralStep(h, q, code, out, dPrev, dEnd);
    case SmallMatch(M) => RepeatStep(h, M, code, out, dPrev, dEnd);
    case LargeMatch(M) => RepeatStep(h, M, code, out, dPrev, dEnd);
  }

  // ---------------------------------------------------------------- there are no others

  /** How many bytes an opcode takes, by its first byte. */
  function HeadSize(b: byte): nat {
    if b == 224 || b == 240 then 2
    else if b > 224 || b == 6 || b == 14 || b == 22 then 1
    else if 160 <= b < 192 || b % 8 == 7 then 3
    else if b % 8 == 6 then 1
    else 2
  }

  /** A literal-and-match opcode, from its first byte. */
  lemma FieldOpcode(code: seq<byte>) returns (op: Opcode)
    requires code != [] && code[0] < 224 && code[0] !in {6, 14, 22} && HeadSize(code[0]) <= |code|
    ensures InRange(op) && Head(op) == code[..HeadSize(code[0])]
  {
    var b: nat := code[0];
    var L, M := b / 64, b / 8 % 8 + 3;
    DivMod(b, 64);
    DivMod(b, 8);
    assert b == L * 64 + (M - 3) * 8 + b % 8;
    if 160 <= b < 192 {
      op := MediumOpcode(code);
    } else if b % 8 == 7 {
      var b1: nat, b2: nat := code[1], code[2];
      op := LargeDistance(L, M, b1 + 256 * b2);
      DivModUnique(b1 + 256 * b2, 256, b2, b1);
    } else if b % 8 == 6 {
      op := PreviousDistance(L, M);
    } else {
      var b1: nat := code[1];
      op := SmallDistance(L, M, b % 8 * 256 + b1);
      DivModUnique(b % 8 * 256 + b1, 256, b % 8, b1);
    }
  }

  lemma MediumOpcode(code: seq<byte>) returns (op: Opcode)
    requires |code| >= 3 && 160 <= code[0] < 192
    ensures op.MediumDistance? && InRange(op) && Head(op) == code[..3]
  {
    var b: nat, b1: nat, b2: nat := code[0], code[1], code[2];
    var e := b - 160;
    var x, D := e % 8 * 4 + b1 % 4, b1 / 4 + 64 * b2;
    op := MediumDistance(e / 8, x + 3, D);
    DivMod(e, 8);
    DivMod(b1, 4);
    DivModUnique(x, 4, e % 8, b1 % 4);
    DivModUnique(D, 64, b2, b1 / 4);
  }

  /** Every code that is long enough begins with exactly these opcodes. */
  lemma EveryOpcode(code: seq<byte>) returns (op: Opcode)
    requires code != [] && HeadSize(code[0]) <= |code|
    ensures InRange(op) && Head(op) == code[..HeadSize(code[0])]
  {
    var b: nat := code[0];
    if b == 6 {
      op := EndOfStream;
    } else if b == 14 || b == 22 {
      op := Nop(b == 22);
    } else if b < 224 {
      op := FieldOpcode(code);
    } else if b == 224 {
      var n: nat := code[1];
      op := LargeLiterals(n + 16);
    } else if b < 240 {
      op := SmallLiterals(b - 224);
    } else if b == 240 {
      var n: nat := code[1];
      op := LargeMatch(n + 16);
    } else {
      op := SmallMatch(b - 240);
    }
  }

  /** One that is not fails, whatever has been decoded. */
  lemma TruncatedOpcode(code: seq<byte>, out: seq<byte>, dPrev: nat, dEnd: nat)
    requires code != [] && HeadSize(code[0]) > |code|
    ensures OneStep(code, out, dPrev, dEnd) == Fail
  {
  }

  /** And so does one whose literals are not all there. */
  lemma TruncatedLiterals(op: Opcode, code: seq<byte>, out: seq<byte>, dPrev: nat, dEnd: nat)
    requires InRange(op) && Head(op) <= code && |code| < |Head(op)| + LiteralCount(op)
    ensures code != [] && OneStep(code, out, dPrev, dEnd) == Fail
  {
    var h := Head(op);
    assert code[..|h|] == h;
    assert code[0] == h[0] && (|h| > 1 ==> code[1] == h[1]);
    match op
    case EndOfStream =>
    case Nop(_) =>
    case SmallMatch(_) =>
    case LargeMatch(_) =>
    case SmallLiterals(_) =>
    case LargeLiterals(_) =>
    case SmallDistance(_, _, _) => SmallOperands(op, code, dPrev);
    case MediumDistance(_, _, _) => MediumOperands(op, code, dPrev);
    case LargeDistance(_, _, _) => LargeOperands(op, code, dPrev);
    case PreviousDistance(_, _) => PreviousOperands(op, code, dPrev);
  }

  // ---------------------------------------------------------------- whole streams

  /** A nop at any opcode boundary is invisible: output and previous distance stay as they are. */
  lemma NopInvisible(nop: byte, rest: seq<byte>, out: seq<byte>, dPrev: nat, dEnd: nat)
    requires nop == 0x0E || nop == 0x16
    ensures Decode([nop] + rest, out, dPrev, dEnd) == Decode(rest, out, dPrev, dEnd)
  {
    var op := Nop(nop == 0x16);
    assert [nop] + [] + rest == [nop] + rest;
    OpcodeStep(op, [], rest, [nop] + rest, out, dPrev, dEnd);
    assert ([nop] + rest)[1..] == rest;
  }

  /** The end opcode ends the stream whatever follows, and is not needed: so does the end of the bytes. */
  lemma EndIsOptional(after: seq<byte>, out: seq<byte>, dPrev: nat, dEnd: nat)
    ensures Decode([6] + after, out, dPrev, dEnd) == Decode([], out, dPrev, dEnd) == Some(out)
  {
    assert [6] + [] + after == [6] + after;
    OpcodeStep(EndOfStream, [], after, [6] + after, out, dPrev, dEnd);
  }

  /** The code of valid operations with short runs decodes to their replay without the end opcode too. */
  lemma UnendedStreamDecodes(ops: seq<Op>, dEnd: nat)
    requires ValidOps(ops) && ShortRuns(ops) && |Replay(ops)| <= dEnd
    ensures Decode(Code(ops), [], 0, dEnd) == Some(Replay(ops))
  {
    assert Code(ops) + [] == Code(ops);
    OpsDecode(ops, [], Code(ops));
  }
}
