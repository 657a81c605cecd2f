/** The LZVN opcode interpreter. */
module LzvnDecode {
  import opened Bits
  import opened Lz

  /** What one opcode does: stop, fail, or consume `used` bytes and continue with a longer output. */
  datatype Step = Stop | Fail | Next(used: nat, out: seq<byte>, dPrev: nat)

  /** L literal bytes at code[at..] and then a match of M bytes at distance D. */
  function LitMatch(code: seq<byte>, at: nat, out: seq<byte>, L: nat, M: nat, D: nat, dEnd: nat): (r: Step)
    ensures r.Next? ==> r.used == at + L <= |code| && |r.out| == |out| + L + M <= dEnd && r.dPrev == D
  {
    if at + L > |code| || |out| + L > dEnd then Fail
    else
      var out1 := out + code[at..at + L];
      if D == 0 || D > |out1| || |out1| + M > dEnd then Fail else Next(at + L, LzCopy(out1, D, M), D)
  }

  /** The fields of an opcode with literals and a match: length of the opcode, L, M and D. */
  datatype Operands = Truncated | Operands(at: nat, L: nat, M: nat, D: nat)

  function MatchOperands(code: seq<byte>, dPrev: nat): Operands
    requires code != []
  {
    var n := |code|;
    var opc: nat := code[0];
    var b1: nat := if n < 2 then 0 else code[1];
    var b2: nat := if n < 3 then 0 else code[2];
    if 0xA0 <= opc < 0xC0 then                                 // med_d
      if n < 3 then Truncated
      else Operands(3, opc / 8 % 4, opc % 8 * 4 + b1 % 4 + 3, b1 / 4 + 64 * b2)
    else if opc % 8 == 6 then                                  // pre_d
      Operands(1, opc / 64, opc / 8 % 8 + 3, dPrev)
    else if opc % 8 == 7 then                                  // lrg_d
      if n < 3 then Truncated else Operands(3, opc / 64, opc / 8 % 8 + 3, b1 + 256 * b2)
    else                                                       // sml_d
      if n < 2 then Truncated else Operands(2, opc / 64, opc / 8 % 8 + 3, opc % 8 * 256 + b1)
  }

  /** One opcode: out is what has been produced, dPrev the distance of the last match (0 if none). */
  function OneStep(code: seq<byte>, out: seq<byte>, dPrev: nat, dEnd: nat): (r: Step)
    requires code != []
    ensures r.Next? ==> 1 <= r.used <= |code| && |out| <= |r.out|
  {
    var n := |code|;
    var opc: nat := code[0];
    var b1: nat := if n < 2 then 0 else code[1];
    if opc == 0x06 then Stop                                   // eos
    else if opc == 0x0E || opc == 0x16 then Next(1, out, dPrev) // nop
    else if opc >= 0xF0 then                                   // lrg_m, sml_m
      if opc == 0xF0 && n < 2 then Fail
      else
        var at := if opc == 0xF0 then 2 else 1;
        var M := if opc == 0xF0 then b1 + 16 else opc % 16;
        LitMatch(code, at, out, 0, M, dPrev, dEnd)
    else if opc >= 0xE0 then                                   // lrg_l, sml_l
      if opc == 0xE0 && n < 2 then Fail
      else
        var at := if opc == 0xE0 then 2 else 1;
        var L := if opc == 0xE0 then b1 + 16 else opc % 16;
        if at + L > n || |out| + L > dEnd then Fail else Next(at + L, out + code[at..at + L], dPrev)
    else
      match MatchOperands(code, dPrev)
      case Truncated => Fail
      case Operands(at, L, M, D) => LitMatch(code, at, out, L, M, D, dEnd)
  }

  /** Runs the opcodes in code; None is a malformed stream. */
  function Decode(code: seq<byte>, out: seq<byte>, dPrev: nat, dEnd: nat): Option<seq<byte>>
    decreases |code|
  {
    if code == [] then Some(out)
    else
      match OneStep(code, out, dPrev, dEnd)
      case Stop => Some(out)
      case Fail => None
      case Next(used, out', dPrev') => Decode(code[used..], out', dPrev', dEnd)
  }

  const MAX_EXPANSION := 136

  lemma StepExpansion(code: seq<byte>, out: seq<byte>, dPrev: nat, dEnd: nat)
    requires code != []
    ensures var r := OneStep(code, out, dPrev, dEnd);
            r.Next? ==> |r.out| <= |out| + MAX_EXPANSION * r.used && (|out| <= dEnd ==> |r.out| <= dEnd)
  {
  }

  /** No stream produces more than 136 bytes per byte of payload, nor more than its output limit. */
  lemma {:induction false} DecodeExpansion(code: seq<byte>, out: seq<byte>, dPrev: nat, dEnd: nat)
    ensures var r := Decode(code, out, dPrev, dEnd);
            r.Some? ==> |r.value| <= |out| + MAX_EXPANSION * |code| && (|out| <= dEnd ==> |r.value| <= dEnd)
    decreases |code|
  {
    if code == [] {
    } else {
      StepExpansion(code, out, dPrev, dEnd);
      match OneStep(code, out, dPrev, dEnd)
      case Stop =>
      case Fail =>
      case Next(used, out', dPrev') => DecodeExpansion(code[used..], out', dPrev', dEnd);
    }
  }

  lemma LitMatchAppends(code: seq<byte>, at: nat, out: seq<byte>, L: nat, M: nat, D: nat, dEnd: nat)
    ensures var r := LitMatch(code, at, out, L, M, D, dEnd);
            r.Next? ==> 1 <= D <= |out| + L && out + code[at..at + L] <= r.out
                        && Repeats(r.out, |out| + L, D, M)
  {
    var r := LitMatch(code, at, out, L, M, D, dEnd);
    if r.Next? {
      var out1 := out + code[at..at + L];
      LzCopyExtends(out1, D, M);
      assert forall k :: |out1| <= k < |out1| + M ==> Same(r.out, k, D);
    }
  }

  lemma StepAppends(code: seq<byte>, out: seq<byte>, dPrev: nat, dEnd: nat)
    requires code != []
    ensures var r := OneStep(code, out, dPrev, dEnd); r.Next? ==> out <= r.out
  {
    var opc: nat := code[0];
    if opc >= 0xF0 {
      var b1: nat := if |code| < 2 then 0 else code[1];
      var at, M := if opc == 0xF0 then 2 else 1, if opc == 0xF0 then b1 + 16 else opc % 16;
      LitMatchAppends(code, at, out, 0, M, dPrev, dEnd);
    } else if opc < 0xE0 {
      match MatchOperands(code, dPrev)
      case Truncated =>
      case Operands(at, L, M, D) => LitMatchAppends(code, at, out, L, M, D, dEnd);
    }
  }

  /** What has been decoded is never changed. */
  lemma {:induction false} DecodeAppends(code: seq<byte>, out: seq<byte>, dPrev: nat, dEnd: nat)
    ensures var r := Decode(code, out, dPrev, dEnd); r.Some? ==> out <= r.value
    decreases |code|
  {
    if code == [] {
    } else {
      StepAppends(code, out, dPrev, dEnd);
      match OneStep(code, out, dPrev, dEnd)
      case Stop =>
      case Fail =>
      case Next(used, out', dPrev') => DecodeAppends(code[used..], out', dPrev', dEnd);
    }
  }

  // ---------------------------------------------------------------- the interpreter as a loop

  lemma SubSlice(src: seq<byte>, base: nat, at: nat, n: nat)
    requires base <= at && at + n <= |src|
    ensures src[base..][at - base..at - base + n] == src[at..at + n]
  {
  }

  /** Copies L literals, which stand at src[spos..]. */
  method CopyLits(dst: array<byte>, src: seq<byte>, base: nat, spos: nat, dpos: nat, L: nat)
    requires base <= spos && spos + L <= |src| && dpos + L <= dst.Length
    modifies dst
    ensures dst[..dpos + L] == old(dst[..dpos]) + src[base..][spos - base..spos - base + L]
  {
    SubSlice(src, base, spos, L);
    ghost var was := dst[..dpos];
    CopyIn(dst, dpos, src[spos..spos + L]);
    assert dst[..dpos + L] == dst[..dpos] + dst[dpos..dpos + L];
    assert dst[..dpos] == was;
  }

  /** Copies L literals and an M-byte match, as every d opcode does. */
  method CopyLitMatch(dst: array<byte>, src: seq<byte>, base: nat, spos: nat, dpos: nat, L: nat, M: nat, D: nat)
    returns (ok: bool)
    requires base <= spos <= |src| && dpos <= dst.Length
    modifies dst
    ensures var r := LitMatch(src[base..], spos - base, old(dst[..dpos]), L, M, D, dst.Length);
            && (ok <==> r.Next?)
            && (ok ==> dpos + L + M <= dst.Length && dst[..dpos + L + M] == r.out)
  {
    if spos + L > |src| || dpos + L > dst.Length { return false; }
    CopyLits(dst, src, base, spos, dpos, L);
    ok := LzvnCopyMatch(dst, dpos + L, D, M);
  }

  /** The opcodes that carry only a match or only literals (0xE0 and above). */
  method ExecutePlain(dst: array<byte>, src: seq<byte>, at: nat, dpos: nat, dPrev: nat)
    returns (ok: bool, spos': nat, dpos': nat)
    requires at < |src| && dpos <= dst.Length && src[at] >= 0xE0
    modifies dst
    ensures var r := OneStep(src[at..], old(dst[..dpos]), dPrev, dst.Length);
            && (ok <==> r.Next?)
            && (ok ==> spos' == at + r.used && dpos' <= dst.Length && dst[..dpos'] == r.out && r.dPrev == dPrev)
  {
    var opc: nat := src[at];
    var spos := at + 1;
    ok, spos', dpos' := false, at, dpos;
    var size: nat := opc % 16;
    if opc == 0xF0 || opc == 0xE0 {
      if spos >= |src| { return; }
      size := src[spos];
      size := size + 16;
      spos := spos + 1;
    }
    if opc >= 0xF0 {
      if dPrev == 0 { return; }
      ok := CopyLitMatch(dst, src, at, spos, dpos, 0, size, dPrev);
      spos', dpos' := spos, dpos + size;
    } else {
      if spos + size > |src| || dpos + size > dst.Length { return; }
      CopyLits(dst, src, at, spos, dpos, size);
      ok, spos', dpos' := true, spos + size, dpos + size;
    }
  }

  method ReadOperands(src: seq<byte>, at: nat, dPrev: nat) returns (ok: bool, spos: nat, L: nat, M: nat, D: nat)
    requires at < |src|
    ensures at < spos && (ok ==> spos <= |src|)
    ensures MatchOperands(src[at..], dPrev) == if ok then Operands(spos - at, L, M, D) else Truncated
  {
    var opc: nat := src[at];
    ok, spos, L, M, D := false, at + 1, 0, 0, dPrev;
    if opc == 0xA0 || (opc >= 0xA1 && opc < 0xC0) {
      if spos + 2 > |src| { return; }
      var b1: nat, b2: nat := src[spos], src[spos + 1];
      spos := spos + 2;
      L, M, D := opc / 8 % 4, opc % 8 * 4 + b1 % 4 + 3, b1 / 4 + b2 * 64;
    } else {
      L, M := opc / 64, opc / 8 % 8 + 3;
      var lo3 := opc % 8;
      if lo3 < 6 {
        if spos >= |src| { return; }
        var b1: nat := src[spos];
        D := lo3 * 256 + b1;
        spos := spos + 1;
      } else if lo3 == 7 {
        if spos + 2 > |src| { return; }
        var b1: nat, b2: nat := src[spos], src[spos + 1];
        D := b1 + 256 * b2;
        spos := spos + 2;
      }
    }
    ok := true;
  }

  /** The opcodes that carry literals and a match. */
  method ExecuteMatch(dst: array<byte>, src: seq<byte>, at: nat, dpos: nat, dPrev: nat)
    returns (ok: bool, spos': nat, dpos': nat, D: nat)
    requires at < |src| && dpos <= dst.Length && src[at] < 0xE0 && src[at] !in {0x06, 0x0E, 0x16}
    modifies dst
    ensures var r := OneStep(src[at..], old(dst[..dpos]), dPrev, dst.Length);
            && (ok <==> r.Next?)
            && (ok ==> spos' == at + r.used && dpos' <= dst.Length && dst[..dpos'] == r.out && r.dPrev == D)
  {
    var spos, L, M;
    spos', dpos' := at, dpos;
    ok, spos, L, M, D := ReadOperands(src, at, dPrev);
    if !ok { return; }
    if D == 0 { return false, at, dpos, D; }
    ok := CopyLitMatch(dst, src, at, spos, dpos, L, M, D);
    spos', dpos' := spos + L, dpos + L + M;
  }

  method DecodeBuffer(dst: array<byte>, src: seq<byte>) returns (ok: bool, n: nat)
    modifies dst
    ensures n <= dst.Length
    ensures Decode(src, [], 0, dst.Length) == if ok then Some(dst[..n]) else None
  {
    var dpos: nat, spos: nat, dPrev: nat := 0, 0, 0;
    assert src[0..] == src && dst[..0] == [];
    while spos < |src|
      invariant spos <= |src| && dpos <= dst.Length
      invariant Decode(src[spos..], dst[..dpos], dPrev, dst.Length) == Decode(src, [], 0, dst.Length)
      decreases |src| - spos
    {
      var opc: nat := src[spos];
      ghost var code := src[spos..];
      if opc == 0x06 {
        return true, dpos;
      } else if opc == 0x0E || opc == 0x16 {
        spos := spos + 1;
        assert code[1..] == src[spos..];
      } else {
        ghost var step := OneStep(code, dst[..dpos], dPrev, dst.Length);
        if opc >= 0xE0 {
          ok, spos, dpos := ExecutePlain(dst, src, spos, dpos, dPrev);
        } else {
          ok, spos, dpos, dPrev := ExecuteMatch(dst, src, spos, dpos, dPrev);
        }
        if !ok { return false, 0; }
        assert code[step.used..] == src[spos..];
      }
    }
    return true, dpos;
  }
}
