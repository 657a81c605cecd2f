/** DecompressLimit: the block loop over a whole stream, with every size checked before it is used. */
module Decompress {
  import opened Bits
  import opened Lmd
  import opened Lz
  import opened BlockSpec
  import opened BlockDecode
  import opened V1Header
  import opened V2Header
  import LzvnDecode

  const LZVN_MAX_EXPANSION := 136

  /** The result of decompressing: the bytes, the error for exceeding the ceiling, or any other error. */
  datatype Outcome = Decoded(bytes: seq<byte>) | TooLarge | Invalid

  // ---------------------------------------------------------------- what the loop computes

  /** One turn of the loop: on to the next block, or the outcome. */
  datatype Step = Next(pos: nat, out: seq<byte>, t: Tables) | Stop(outcome: Outcome)

  /** The raw size is one the symbols can produce, and every initial state is inside its table. */
  predicate RawFits(h: Header) {
    h.nRawBytes <= h.nLiterals + h.nMatches * MAX_M && HeaderOk(h)
  }

  ghost function StoredStep(src: seq<byte>, pos: nat, out: seq<byte>, t: Tables, maxOut: nat): Step
    requires pos <= |src|
  {
    if pos + 8 > |src| then Stop(Invalid)
    else
      var n := LE(src[pos + 4..pos + 8]);
      if pos + 8 + n > |src| then Stop(Invalid)
      else if |out| + n > maxOut then Stop(TooLarge)
      else Next(pos + 8 + n, out + src[pos + 8..pos + 8 + n], t)
  }

  /** A V1 or V2 block whose payload begins at pos. */
  ghost function CompressedStep(h: Header, src: seq<byte>, pos: nat, out: seq<byte>, t: Tables, maxOut: nat): (r: Step)
    requires pos <= |src| && TablesOk(t)
    ensures r.Next? ==> pos <= r.pos <= |src| && TablesOk(r.t)
  {
    var end := pos + h.nLiteralPayloadBytes + h.nLMDPayloadBytes;
    if end > |src| || !RawFits(h) then Stop(Invalid)
    else if |out| + h.nRawBytes > maxOut then Stop(TooLarge)
    else if !FreqsFit(h) then Stop(Invalid)
    else
      BuiltTablesOk(h, t);
      var r := DecodeBlock(h, src[..end], pos, out, BuildTables(h, t));
      if r.None? then Stop(Invalid) else Next(end, r.value, BuildTables(h, t))
  }

  ghost function V1Step(src: seq<byte>, pos: nat, out: seq<byte>, t: Tables, maxOut: nat): (r: Step)
    requires pos <= |src| && TablesOk(t)
    ensures r.Next? ==> pos < r.pos <= |src| && TablesOk(r.t)
  {
    if pos + V1_HEADER_SIZE > |src| then Stop(Invalid)
    else
      var h := ReadV1Header(src[pos..]);
      if h.nLiterals > LITERALS_PER_BLOCK || h.nMatches > MATCHES_PER_BLOCK then Stop(Invalid)
      else CompressedStep(h, src, pos + V1_HEADER_SIZE, out, t, maxOut)
  }

  ghost function V2Step(src: seq<byte>, pos: nat, out: seq<byte>, t: Tables, maxOut: nat): (r: Step)
    requires pos <= |src| && TablesOk(t)
    ensures r.Next? ==> pos < r.pos <= |src| && TablesOk(r.t)
  {
    AfterV2Header(ReadV2Header(src[pos..]), src, pos, out, t, maxOut)
  }

  ghost function AfterV2Header(v2: Option<V2>, src: seq<byte>, pos: nat, out: seq<byte>, t: Tables, maxOut: nat)
    : (r: Step)
    requires pos <= |src| && TablesOk(t) && (v2.Some? ==> 0 < v2.value.size <= |src| - pos)
    ensures r.Next? ==> pos < r.pos <= |src| && TablesOk(r.t)
  {
    if v2.None? then Stop(Invalid) else CompressedStep(v2.value.h, src, pos + v2.value.size, out, t, maxOut)
  }

  ghost function LzvnStep(src: seq<byte>, pos: nat, out: seq<byte>, t: Tables, maxOut: nat): (r: Step)
    requires pos <= |src|
    ensures r.Next? ==> pos < r.pos <= |src| && r.t == t
  {
    if pos + 12 > |src| then Stop(Invalid)
    else
      var raw, payload := LE(src[pos + 4..pos + 8]), LE(src[pos + 8..pos + 12]);
      LzvnChecked(src, pos + 12, out, t, maxOut, raw, payload)
  }

  /** The payload at src[pos..], checked against the sizes its header declares. */
  ghost function LzvnChecked(src: seq<byte>, pos: nat, out: seq<byte>, t: Tables, maxOut: nat, raw: nat, payload: nat)
    : Step
    requires pos <= |src|
  {
    if pos + payload > |src| || raw > LZVN_MAX_EXPANSION * payload then Stop(Invalid)
    else if |out| + raw > maxOut then Stop(TooLarge)
    else LzvnResult(pos + payload, out, t, LzvnDecode.Decode(src[pos..pos + payload], [], 0, raw))
  }

  function LzvnResult(next: nat, out: seq<byte>, t: Tables, r: Option<seq<byte>>): Step {
    if r.None? then Stop(Invalid) else Next(next, out + r.value, t)
  }

  datatype Kind = EndOfStream | Uncompressed | CompressedV1 | CompressedV2 | CompressedLzvn | Unknown

  /** The block kind a magic number names. */
  function KindOf(magic: nat): Kind {
    if magic == MAGIC_END_OF_STREAM then EndOfStream
    else if magic == MAGIC_UNCOMPRESSED then Uncompressed
    else if magic == MAGIC_COMPRESSED_V1 then CompressedV1
    else if magic == MAGIC_COMPRESSED_V2 then CompressedV2
    else if magic == MAGIC_COMPRESSED_LZVN then CompressedLzvn
    else Unknown
  }

  ghost function StepOfKind(kind: Kind, src: seq<byte>, pos: nat, out: seq<byte>, t: Tables, maxOut: nat): (r: Step)
    requires pos < |src| && TablesOk(t)
    ensures r.Next? ==> pos < r.pos <= |src| && TablesOk(r.t)
  {
    match kind
    case EndOfStream => Stop(Decoded(out))
    case Uncompressed => StoredStep(src, pos, out, t, maxOut)
    case CompressedV1 => V1Step(src, pos, out, t, maxOut)
    case CompressedV2 => V2Step(src, pos, out, t, maxOut)
    case CompressedLzvn => LzvnStep(src, pos, out, t, maxOut)
    case Unknown => Stop(Invalid)
  }

  ghost function DecodeStep(src: seq<byte>, pos: nat, out: seq<byte>, t: Tables, maxOut: nat): (r: Step)
    requires pos < |src| && TablesOk(t)
    ensures r.Next? ==> pos < r.pos <= |src| && TablesOk(r.t)
  {
    if pos + 4 > |src| then Stop(Invalid)
    else StepOfKind(KindOf(LE(src[pos..pos + 4])), src, pos, out, t, maxOut)
  }

  /** The step of a block whose kind is known. */
  lemma StepByKind(src: seq<byte>, pos: nat, out: seq<byte>, t: Tables, maxOut: nat, kind: Kind, r: Step)
    requires pos + 4 <= |src| && TablesOk(t) && KindOf(LE(src[pos..pos + 4])) == kind
    requires StepOfKind(kind, src, pos, out, t, maxOut) == r
    ensures DecodeStep(src, pos, out, t, maxOut) == r
  {
  }

  /** What the stream from pos on decodes to, after out. */
  ghost function DecodeStream(src: seq<byte>, pos: nat, out: seq<byte>, t: Tables, maxOut: nat): Outcome
    requires TablesOk(t)
    decreases |src| - pos
  {
    if pos >= |src| then Decoded(out)
    else
      match DecodeStep(src, pos, out, t, maxOut)
      case Next(pos', out', t') => DecodeStream(src, pos', out', t', maxOut)
      case Stop(outcome) => outcome
  }

  // ---------------------------------------------------------------- the ceiling and the pre-checks

  /** A step that goes on extends the output and stays within the ceiling; one that stops adds nothing. */
  ghost predicate WithinCeiling(out: seq<byte>, r: Step, maxOut: nat) {
    match r
    case Next(_, out', _) => out <= out' && |out'| <= maxOut
    case Stop(outcome) => outcome.Decoded? ==> outcome.bytes == out
  }

  lemma CompressedWithinCeiling(h: Header, src: seq<byte>, pos: nat, out: seq<byte>, t: Tables, maxOut: nat, r: Step)
    requires pos <= |src| && TablesOk(t) && |out| <= maxOut && r == CompressedStep(h, src, pos, out, t, maxOut)
    ensures WithinCeiling(out, r, maxOut)
  {
    if r.Next? {
      BuiltTablesOk(h, t);
      var end := pos + h.nLiteralPayloadBytes + h.nLMDPayloadBytes;
      var decoded := DecodeBlock(h, src[..end], pos, out, BuildTables(h, t));
      assert decoded == Some(r.out);
      BlockExtendsPrior(h, src[..end], pos, out, BuildTables(h, t));
    }
  }

  lemma LzvnWithinCeiling(src: seq<byte>, pos: nat, out: seq<byte>, t: Tables, maxOut: nat, r: Step)
    requires pos <= |src| && r == LzvnStep(src, pos, out, t, maxOut)
    ensures WithinCeiling(out, r, maxOut)
  {
    if r.Next? {
      var raw, payload := LE(src[pos + 4..pos + 8]), LE(src[pos + 8..pos + 12]);
      LzvnDecode.DecodeExpansion(src[pos + 12..pos + 12 + payload], [], 0, raw);
    }
  }

  lemma V1WithinCeiling(src: seq<byte>, pos: nat, out: seq<byte>, t: Tables, maxOut: nat, r: Step)
    requires pos <= |src| && TablesOk(t) && |out| <= maxOut && r == V1Step(src, pos, out, t, maxOut)
    ensures WithinCeiling(out, r, maxOut)
  {
    if r.Next? {
      CompressedWithinCeiling(ReadV1Header(src[pos..]), src, pos + V1_HEADER_SIZE, out, t, maxOut, r);
    }
  }

  lemma V2WithinCeiling(v2: Option<V2>, src: seq<byte>, pos: nat, out: seq<byte>, t: Tables, maxOut: nat, r: Step)
    requires pos <= |src| && TablesOk(t) && |out| <= maxOut && (v2.Some? ==> 0 < v2.value.size <= |src| - pos)
    requires r == AfterV2Header(v2, src, pos, out, t, maxOut)
    ensures WithinCeiling(out, r, maxOut)
  {
    if v2.Some? { CompressedWithinCeiling(v2.value.h, src, pos + v2.value.size, out, t, maxOut, r); }
  }

  /** One turn keeps what was decoded and never passes the ceiling. */
  lemma StepWithinCeiling(src: seq<byte>, pos: nat, out: seq<byte>, t: Tables, maxOut: nat, r: Step)
    requires pos < |src| && TablesOk(t) && |out| <= maxOut && r == DecodeStep(src, pos, out, t, maxOut)
    ensures WithinCeiling(out, r, maxOut)
  {
    if pos + 4 <= |src| {
      match KindOf(LE(src[pos..pos + 4]))
      case CompressedV1 => V1WithinCeiling(src, pos, out, t, maxOut, r);
      case CompressedV2 => V2WithinCeiling(ReadV2Header(src[pos..]), src, pos, out, t, maxOut, r);
      case CompressedLzvn => LzvnWithinCeiling(src, pos, out, t, maxOut, r);
      case _ =>
    }
  }

  /** Whatever the stream, a success is at most maxOut bytes long and keeps everything decoded before. */
  lemma {:induction false} SuccessWithinCeiling(src: seq<byte>, pos: nat, out: seq<byte>, t: Tables, maxOut: nat)
    requires TablesOk(t) && |out| <= maxOut
    ensures var r := DecodeStream(src, pos, out, t, maxOut);
            r.Decoded? ==> out <= r.bytes && |r.bytes| <= maxOut
    decreases |src| - pos
  {
    if pos >= |src| {
    } else {
      var r := DecodeStep(src, pos, out, t, maxOut);
      StepWithinCeiling(src, pos, out, t, maxOut, r);
      if r.Next? { SuccessWithinCeiling(src, r.pos, r.out, r.t, maxOut); }
    }
  }

  /** The raw-size pre-check of a compressed block refuses no block that decodes. */
  lemma RawCheckIsSound(h: Header, src: seq<byte>, start: nat, prior: seq<byte>, t: Tables)
    requires HeaderOk(h) && TablesOk(t) && start <= |src|
    requires DecodeBlock(h, src, start, prior, t).Some?
    ensures RawFits(h)
  {
    BlockExtendsPrior(h, src, start, prior, t);
  }

  /** The expansion pre-check of an LZVN block refuses no block that produces the size it declares. */
  lemma ExpansionCheckIsSound(payload: seq<byte>, raw: nat, bytes: seq<byte>)
    requires LzvnDecode.Decode(payload, [], 0, raw) == Some(bytes) && |bytes| == raw
    ensures raw <= LZVN_MAX_EXPANSION * |payload|
  {
    LzvnDecode.DecodeExpansion(payload, [], 0, raw);
  }

  // ---------------------------------------------------------------- the loop as the code runs it

  /** A turn's result in the loop's variables. */
  ghost function TurnOf(err: Option<Outcome>, next: nat, out: seq<byte>, t: Tables): Step {
    if err.Some? then Stop(err.value) else Next(next, out, t)
  }

  /** The results of the two specification steps, as facts to pass around. */
  ghost predicate CompressedIs(h: Header, src: seq<byte>, pos: nat, out: seq<byte>, t: Tables, maxOut: nat, r: Step) {
    pos <= |src| && TablesOk(t) && forall p: nat :: p == pos ==> CompressedStep(h, src, p, out, t, maxOut) == r
  }

  ghost predicate AfterHeaderIs(v2: Option<V2>, src: seq<byte>, pos: nat, out: seq<byte>, t: Tables, maxOut: nat,
                                r: Step)
  {
    && pos <= |src| && TablesOk(t) && (v2.Some? ==> 0 < v2.value.size <= |src| - pos)
    && forall p: nat :: p == pos ==> AfterV2Header(v2, src, p, out, t, maxOut) == r
  }

  /** Appends bytes to the output. */
  method Append(out0: array<byte>, used: nat, bytes: seq<byte>) returns (out: array<byte>)
    requires used <= out0.Length
    ensures fresh(out) && out.Length == used + |bytes| && out[..] == out0[..used] + bytes
  {
    out := GrowOut(out0, used, |bytes|);
    CopyIn(out, used, bytes);
    assert out[..used] == out0[..used] && out[used..] == bytes;
    assert out[..] == out[..used] + out[used..];
  }

  method StoredBlock(src: seq<byte>, pos: nat, out0: array<byte>, used0: nat, maxOut: nat, ghost t: Tables)
    returns (err: Option<Outcome>, next: nat, out: array<byte>, used: nat)
    requires pos <= |src| && used0 <= out0.Length
    ensures used <= out.Length && (out == out0 || fresh(out))
    ensures StoredStep(src, pos, out0[..used0], t, maxOut) == TurnOf(err, next, out[..used], t)
  {
    err, next, out, used := Some(Invalid), pos, out0, used0;
    if pos + 8 > |src| { return; }
    var n := LE(src[pos + 4..pos + 8]);
    if pos + 8 + n > |src| { return; }
    if used0 + n > maxOut { return Some(TooLarge), pos, out0, used0; }
    out := Append(out0, used0, src[pos + 8..pos + 8 + n]);
    err, next, used := None, pos + 8 + n, used0 + n;
    assert out[..used] == out[..];
  }

  method RawFitsBlock(h: Header) returns (ok: bool)
    requires |h.literalState| == 4
    requires |h.lFreq| == 20 && |h.mFreq| == 20 && |h.dFreq| == 64 && |h.literalFreq| == 256
    ensures ok <==> RawFits(h)
  {
    Pow2Values();
    if h.nRawBytes > h.nLiterals + h.nMatches * MAX_M { return false; }
    for i := 0 to 4
      invariant forall j :: 0 <= j < i ==> h.literalState[j] < 1024
    {
      if h.literalState[i] >= 1024 { return false; }
    }
    return h.lState < 64 && h.mState < 64 && h.dState < 256;
  }

  /** A block whose header was read and whose payload begins at pos. */
  method CompressedBlock(h: Header, src: seq<byte>, pos: nat, out0: array<byte>, used0: nat, sc: Scratch, maxOut: nat)
    returns (err: Option<Outcome>, next: nat, out: array<byte>, used: nat)
    requires |h.lFreq| == 20 && |h.mFreq| == 20 && |h.dFreq| == 64 && |h.literalFreq| == 256 && |h.literalState| == 4
    requires pos <= |src| && used0 <= out0.Length && sc.Valid()
    modifies sc.lit, sc.l, sc.m, sc.d
    ensures used <= out.Length && (out == out0 || fresh(out)) && (err.None? ==> sc.Valid())
    ensures CompressedIs(h, src, pos, old(out0[..used0]), old(sc.Tables()), maxOut,
                         TurnOf(err, next, out[..used], sc.Tables()))
  {
    err, next, out, used := Some(Invalid), pos, out0, used0;
    var payload := h.nLiteralPayloadBytes + h.nLMDPayloadBytes;
    if pos + payload > |src| { return; }
    var rawOk := RawFitsBlock(h);
    if !rawOk { return; }
    if used0 + h.nRawBytes > maxOut { return Some(TooLarge), pos, out0, used0; }
    ghost var t, was := sc.Tables(), out0[..used0];
    if FreqsFit(h) { BuiltTablesOk(h, t); }
    var ok;
    ok, out, used := DecodeCompressedBlock(h, src[..pos + payload], pos, out0, used0, sc);
    BlockStep(h, src, pos, was, t, maxOut, if ok then Some(out[..used]) else None);
    if !ok { return; }
    err, next := None, pos + payload;
  }

  lemma BlockStep(h: Header, src: seq<byte>, pos: nat, out: seq<byte>, t: Tables, maxOut: nat, r: Option<seq<byte>>)
    requires pos + h.nLiteralPayloadBytes + h.nLMDPayloadBytes <= |src| && TablesOk(t)
    requires RawFits(h) && |out| + h.nRawBytes <= maxOut
    requires r.Some? ==> FreqsFit(h)
    requires FreqsFit(h) ==>
               && TablesOk(BuildTables(h, t))
               && DecodeBlock(h, src[..pos + h.nLiteralPayloadBytes + h.nLMDPayloadBytes], pos, out,
                              BuildTables(h, t)) == r
    ensures CompressedStep(h, src, pos, out, t, maxOut)
            == if r.None? then Stop(Invalid)
               else Next(pos + h.nLiteralPayloadBytes + h.nLMDPayloadBytes, r.value, BuildTables(h, t))
  {
  }

  lemma BlockTooLarge(h: Header, src: seq<byte>, pos: nat, out: seq<byte>, t: Tables, maxOut: nat)
    requires pos + h.nLiteralPayloadBytes + h.nLMDPayloadBytes <= |src| && TablesOk(t)
    requires RawFits(h) && |out| + h.nRawBytes > maxOut
    ensures CompressedStep(h, src, pos, out, t, maxOut) == Stop(TooLarge)
  {
  }

  method V1Block(src: seq<byte>, pos: nat, out0: array<byte>, used0: nat, sc: Scratch, maxOut: nat)
    returns (err: Option<Outcome>, next: nat, out: array<byte>, used: nat)
    requires pos <= |src| && used0 <= out0.Length && sc.Valid()
    modifies sc.lit, sc.l, sc.m, sc.d
    ensures used <= out.Length && (out == out0 || fresh(out)) && (err.None? ==> sc.Valid())
    ensures V1Step(src, pos, old(out0[..used0]), old(sc.Tables()), maxOut)
            == TurnOf(err, next, out[..used], sc.Tables())
  {
    err, next, out, used := Some(Invalid), pos, out0, used0;
    if pos + V1_HEADER_SIZE > |src| { return; }
    var h := ReadV1Header(src[pos..]);
    if h.nLiterals > LITERALS_PER_BLOCK || h.nMatches > MATCHES_PER_BLOCK { return; }
    ghost var t, was := sc.Tables(), out0[..used0];
    err, next, out, used := CompressedBlock(h, src, pos + V1_HEADER_SIZE, out0, used0, sc, maxOut);
    assert CompressedStep(h, src, pos + V1_HEADER_SIZE, was, t, maxOut) == TurnOf(err, next, out[..used], sc.Tables());
  }

  method V2Block(src: seq<byte>, pos: nat, out0: array<byte>, used0: nat, sc: Scratch, maxOut: nat)
    returns (err: Option<Outcome>, next: nat, out: array<byte>, used: nat)
    requires pos <= |src| && used0 <= out0.Length && sc.Valid()
    modifies sc.lit, sc.l, sc.m, sc.d
    ensures used <= out.Length && (out == out0 || fresh(out)) && (err.None? ==> sc.Valid())
    ensures AfterHeaderIs(ReadV2Header(src[pos..]), src, pos, old(out0[..used0]), old(sc.Tables()), maxOut,
                          TurnOf(err, next, out[..used], sc.Tables()))
  {
    err, next, out, used := Some(Invalid), pos, out0, used0;
    var ok, h, size := DecodeV2Header(src[pos..]);
    if !ok { return; }
    ghost var t, was := sc.Tables(), out0[..used0];
    err, next, out, used := CompressedBlock(h, src, pos + size, out0, used0, sc, maxOut);
    HeaderThenBlock(h, size, src, pos, was, t, maxOut, TurnOf(err, next, out[..used], sc.Tables()));
  }

  lemma HeaderThenBlock(h: Header, size: nat, src: seq<byte>, pos: nat, out: seq<byte>, t: Tables, maxOut: nat, r: Step)
    requires 0 < size && pos + size <= |src| && CompressedIs(h, src, pos + size, out, t, maxOut, r)
    ensures AfterHeaderIs(Some(V2(h, size)), src, pos, out, t, maxOut, r)
  {
    assert CompressedStep(h, src, pos + size, out, t, maxOut) == r;
  }

  lemma V2StepIs(src: seq<byte>, pos: nat, out: seq<byte>, t: Tables, maxOut: nat, v2: Option<V2>, r: Step)
    requires AfterHeaderIs(v2, src, pos, out, t, maxOut, r) && v2 == ReadV2Header(src[pos..])
    ensures V2Step(src, pos, out, t, maxOut) == r
  {
    assert AfterV2Header(v2, src, pos, out, t, maxOut) == r;
  }

  method LzvnBlock(src: seq<byte>, pos: nat, out0: array<byte>, used0: nat, maxOut: nat, ghost t: Tables)
    returns (err: Option<Outcome>, next: nat, out: array<byte>, used: nat)
    requires pos <= |src| && used0 <= out0.Length
    ensures used <= out.Length && (out == out0 || fresh(out))
    ensures LzvnStep(src, pos, out0[..used0], t, maxOut) == TurnOf(err, next, out[..used], t)
  {
    err, next, out, used := Some(Invalid), pos, out0, used0;
    if pos + 12 > |src| { return; }
    var raw, payload := LE(src[pos + 4..pos + 8]), LE(src[pos + 8..pos + 12]);
    if pos + 12 + payload > |src| { return; }
    if raw > LZVN_MAX_EXPANSION * payload { return; }
    if used0 + raw > maxOut { return Some(TooLarge), pos, out0, used0; }
    var block, code := new byte[raw], src[pos + 12..pos + 12 + payload];
    var ok, n := LzvnDecode.DecodeBuffer(block, code);
    LzvnStepIs(src, pos, out0[..used0], t, maxOut, raw, payload, code, if ok then Some(block[..n]) else None);
    if !ok { return; }
    out := Append(out0, used0, block[..n]);
    err, next, used := None, pos + 12 + payload, used0 + n;
    assert out[..used] == out[..];
  }

  /** The answer for an LZVN payload, as a fact to pass around. */
  ghost predicate PayloadGives(payload: seq<byte>, raw: nat, r: Option<seq<byte>>) {
    forall n: nat :: n == raw ==> LzvnDecode.Decode(payload, [], 0, n) == r
  }

  lemma LzvnStepIs(src: seq<byte>, pos: nat, out: seq<byte>, t: Tables, maxOut: nat, raw: nat, payload: nat,
                   code: seq<byte>, r: Option<seq<byte>>)
    requires pos + 12 + payload <= |src| && |out| + raw <= maxOut && raw <= LZVN_MAX_EXPANSION * payload
    requires LE(src[pos + 4..pos + 8]) == raw && LE(src[pos + 8..pos + 12]) == payload
    requires code == src[pos + 12..pos + 12 + payload] && PayloadGives(code, raw, r)
    ensures LzvnStep(src, pos, out, t, maxOut) == LzvnResult(pos + 12 + payload, out, t, r)
  {
    LzvnStepChecks(src, pos, out, t, maxOut, raw, payload);
    LzvnCheckedIs(src, pos + 12, out, t, maxOut, raw, payload, code, r);
  }

  lemma LzvnStepChecks(src: seq<byte>, pos: nat, out: seq<byte>, t: Tables, maxOut: nat, raw: nat, payload: nat)
    requires pos + 12 <= |src| && LE(src[pos + 4..pos + 8]) == raw && LE(src[pos + 8..pos + 12]) == payload
    ensures LzvnStep(src, pos, out, t, maxOut) == LzvnChecked(src, pos + 12, out, t, maxOut, raw, payload)
  {
  }

  /** Past the ceiling the payload is not looked at. */
  lemma LzvnStepLarge(src: seq<byte>, pos: nat, out: seq<byte>, t: Tables, maxOut: nat, raw: nat, payload: nat)
    requires pos + 12 + payload <= |src| && |out| + raw > maxOut && raw <= LZVN_MAX_EXPANSION * payload
    requires LE(src[pos + 4..pos + 8]) == raw && LE(src[pos + 8..pos + 12]) == payload
    ensures LzvnStep(src, pos, out, t, maxOut) == Stop(TooLarge)
  {
    LzvnStepChecks(src, pos, out, t, maxOut, raw, payload);
  }

  lemma LzvnCheckedIs(src: seq<byte>, pos: nat, out: seq<byte>, t: Tables, maxOut: nat, raw: nat, payload: nat,
                      code: seq<byte>, r: Option<seq<byte>>)
    requires pos + payload <= |src| && |out| + raw <= maxOut && raw <= LZVN_MAX_EXPANSION * payload
    requires code == src[pos..pos + payload] && PayloadGives(code, raw, r)
    ensures LzvnChecked(src, pos, out, t, maxOut, raw, payload) == LzvnResult(pos + payload, out, t, r)
  {
    assert LzvnDecode.Decode(code, [], 0, raw) == r;
  }

  /** One turn of the loop. */
  method NextBlock(src: seq<byte>, pos: nat, out0: array<byte>, used0: nat, sc: Scratch, maxOut: nat)
    returns (err: Option<Outcome>, next: nat, out: array<byte>, used: nat)
    requires pos < |src| && used0 <= out0.Length && sc.Valid()
    modifies sc.lit, sc.l, sc.m, sc.d
    ensures used <= out.Length && (out == out0 || fresh(out)) && (err.None? ==> sc.Valid())
    ensures DecodeStep(src, pos, old(out0[..used0]), old(sc.Tables()), maxOut)
            == TurnOf(err, next, out[..used], sc.Tables())
  {
    err, next, out, used := Some(Invalid), pos, out0, used0;
    if pos + 4 > |src| { return; }
    var magic := LE(src[pos..pos + 4]);
    if magic == MAGIC_END_OF_STREAM {
      err := Some(Decoded(out0[..used0]));
    } else if magic == MAGIC_UNCOMPRESSED {
      err, next, out, used := StoredBlock(src, pos, out0, used0, maxOut, sc.Tables());
    } else if magic == MAGIC_COMPRESSED_V1 {
      err, next, out, used := V1Block(src, pos, out0, used0, sc, maxOut);
    } else if magic == MAGIC_COMPRESSED_V2 {
      ghost var t, was := sc.Tables(), out0[..used0];
      err, next, out, used := V2Block(src, pos, out0, used0, sc, maxOut);
      V2StepIs(src, pos, was, t, maxOut, ReadV2Header(src[pos..]), TurnOf(err, next, out[..used], sc.Tables()));
    } else if magic == MAGIC_COMPRESSED_LZVN {
      err, next, out, used := LzvnBlock(src, pos, out0, used0, maxOut, sc.Tables());
    }
  }

  /** The stream from here decodes to r. */
  ghost predicate DecodesTo(src: seq<byte>, pos: nat, out: seq<byte>, t: Tables, maxOut: nat, r: Outcome) {
    TablesOk(t) && forall p: nat :: p == pos ==> DecodeStream(src, p, out, t, maxOut) == r
  }

  lemma TurnGoesOn(src: seq<byte>, pos: nat, out: seq<byte>, t: Tables, maxOut: nat, r: Outcome,
                   step: Step, err: Option<Outcome>, next: nat, out': seq<byte>, t': Tables)
    requires pos < |src| && DecodesTo(src, pos, out, t, maxOut, r) && step == DecodeStep(src, pos, out, t, maxOut)
    requires step == TurnOf(err, next, out', t')
    ensures err.Some? ==> err.value == r
    ensures err.None? ==> pos < next <= |src| && DecodesTo(src, next, out', t', maxOut, r)
  {
    assert DecodeStream(src, pos, out, t, maxOut) == r;
  }

  /** Decodes a whole stream; any input gives an outcome, and a success has at most maxOut bytes. */
  method DecompressLimit(src: seq<byte>, maxOut: nat) returns (r: Outcome)
    ensures DecodesTo(src, 0, [], EmptyTables(), maxOut, r)
    ensures r.Decoded? ==> |r.bytes| <= maxOut
  {
    EmptyTablesOk();
    var sc := new Scratch();
    var out, used, pos := new byte[0], 0, 0;
    ghost var result := DecodeStream(src, 0, [], EmptyTables(), maxOut);
    SuccessWithinCeiling(src, 0, [], EmptyTables(), maxOut);
    assert out[..0] == [];
    while pos < |src|
      invariant used <= out.Length && sc.Valid()
      invariant fresh(sc) && fresh(sc.lit) && fresh(sc.l) && fresh(sc.m) && fresh(sc.d) && fresh(out)
      invariant DecodesTo(src, pos, out[..used], sc.Tables(), maxOut, result)
      decreases |src| - pos
    {
      ghost var was, t, at := out[..used], sc.Tables(), pos;
      ghost var step := DecodeStep(src, pos, was, t, maxOut);
      var err;
      err, pos, out, used := NextBlock(src, pos, out, used, sc, maxOut);
      TurnGoesOn(src, at, was, t, maxOut, result, step, err, pos, out[..used], sc.Tables());
      if err.Some? { return err.value; }
    }
    assert DecodeStream(src, pos, out[..used], sc.Tables(), maxOut) == result;
    return Decoded(out[..used]);
  }
}
