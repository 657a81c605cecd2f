/** LZ77 replay: what a match copy means, and the bulk copies that compute it. */
module Lz {
  import opened Bits

  /** Appends m bytes, each the byte d before the end: the byte-by-byte overlapping copy. */
  function LzCopy(out: seq<byte>, d: nat, m: nat): (r: seq<byte>)
    requires 1 <= d <= |out|
    ensures |r| == |out| + m
    decreases m
  {
    if m == 0 then out else LzCopy(out + [out[|out| - d]], d, m - 1)
  }

  /** r extends out by m bytes, each equal to the byte d places earlier. */
  ghost predicate Extends(out: seq<byte>, d: nat, m: nat, r: seq<byte>)
    requires 1 <= d <= |out|
  {
    && |r| == |out| + m && r[..|out|] == out
    && forall k :: |out| <= k < |r| ==> r[k] == r[k - d]
  }

  /** The copy is the only such extension. */
  lemma {:induction false} LzCopyUnique(out: seq<byte>, d: nat, m: nat, r: seq<byte>)
    requires 1 <= d <= |out| && Extends(out, d, m, r)
    ensures r == LzCopy(out, d, m)
    decreases m
  {
    if m == 0 {
    } else {
      var next := out + [out[|out| - d]];
      assert r[..|next|] == next;
      LzCopyUnique(next, d, m - 1, r);
    }
  }

  lemma {:induction false} LzCopyExtends(out: seq<byte>, d: nat, m: nat)
    requires 1 <= d <= |out|
    ensures Extends(out, d, m, LzCopy(out, d, m))
    decreases m
  {
    if m == 0 {
    } else {
      var next := out + [out[|out| - d]];
      LzCopyExtends(next, d, m - 1);
      var r := LzCopy(out, d, m);
      assert r[..|out|] == r[..|next|][..|out|] == out;
      assert r[|out|] == r[..|next|][|out|] == out[|out| - d];
      assert r[..|out|][|out| - d] == r[|out| - d];
    }
  }

  /** The byte at k is the byte d before it. */
  predicate Same(src: seq<byte>, k: nat, d: nat) {
    d <= k < |src| && src[k] == src[k - d]
  }

  /** Bytes pos..pos+m of src repeat the bytes d before them. */
  ghost predicate Repeats(src: seq<byte>, pos: nat, d: nat, m: nat) {
    1 <= d <= pos && pos + m <= |src| && forall k :: pos <= k < pos + m ==> Same(src, k, d)
  }

  /** Replaying a verified match rebuilds the source. */
  lemma CopyRebuilds(src: seq<byte>, pos: nat, d: nat, m: nat)
    requires Repeats(src, pos, d, m)
    ensures LzCopy(src[..pos], d, m) == src[..pos + m]
  {
    var r := src[..pos + m];
    assert r[..pos] == src[..pos];
    forall k | pos <= k < pos + m
      ensures r[k] == r[k - d]
    {
      assert Same(src, k, d);
    }
    LzCopyUnique(src[..pos], d, m, r);
  }

  // ---------------------------------------------------------------- Go's copy

  /** copy(a[to:to+n], a[from:from+n]) inside one slice: as if the source were read before anything is written. */
  method CopyWithin(a: array<byte>, to: nat, from: nat, n: nat)
    requires to + n <= a.Length && from + n <= a.Length
    modifies a
    ensures forall i :: to <= i < to + n ==> a[i] == old(a[from + (i - to)])
    ensures forall i :: 0 <= i < a.Length && !(to <= i < to + n) ==> a[i] == old(a[i])
  {
    forall i | to <= i < to + n {
      a[i] := a[from + (i - to)];
    }
  }

  method CopyIn(a: array<byte>, to: nat, s: seq<byte>)
    requires to + |s| <= a.Length
    modifies a
    ensures forall i :: to <= i < to + |s| ==> a[i] == s[i - to]
    ensures forall i :: 0 <= i < a.Length && !(to <= i < to + |s|) ==> a[i] == old(a[i])
  {
    forall i | to <= i < to + |s| {
      a[i] := s[i - to];
    }
  }

  /**
   * LZFSE's match copy: one copy when source and destination do not overlap, otherwise the pattern is doubled
   * forward, clamped to the end of the region. Bytes past di + ml are not touched.
   */
  method MatchCopyInto(out: array<byte>, di: nat, mpos: nat, ml: nat)
    requires mpos < di && di + ml <= out.Length
    modifies out
    ensures out[..di + ml] == LzCopy(old(out[..di]), di - mpos, ml)
    ensures forall i :: di + ml <= i < out.Length ==> out[i] == old(out[i])
  {
    var d := di - mpos;
    if d >= ml {
      CopyWithin(out, di, mpos, ml);
    } else {
      var total := d + ml;
      var n := d;
      while n < total
        invariant d <= n
        invariant forall i :: 0 <= i < di ==> out[i] == old(out[i])
        invariant forall i :: di <= i < mpos + Min(n, total) ==> out[i] == out[i - d]
        invariant n < total ==> forall i :: mpos <= i < di ==> out[n - d + i] == out[i]
        invariant forall i :: di + ml <= i < out.Length ==> out[i] == old(out[i])
        decreases total - n
      {
        DoublePattern(out, di, mpos, n, Min(n, total - n));
        n := 2 * n;
      }
    }
    ghost var was := old(out[..di]);
    assert out[..di + ml][..di] == was;
    LzCopyUnique(was, d, ml, out[..di + ml]);
  }

  /** One doubling step: the first c bytes of the pattern region are laid down again n bytes further on. */
  method DoublePattern(out: array<byte>, di: nat, mpos: nat, n: nat, c: nat)
    requires mpos < di && di - mpos <= n && 0 < c <= n && mpos + n + c <= out.Length
    requires forall i :: di <= i < mpos + n ==> out[i] == out[i - (di - mpos)]
    requires forall i :: mpos <= i < di ==> out[n - (di - mpos) + i] == out[i]
    modifies out
    ensures forall i :: 0 <= i < mpos + n ==> out[i] == old(out[i])
    ensures forall i :: di <= i < mpos + n + c ==> out[i] == out[i - (di - mpos)]
    ensures c == n ==> forall i :: mpos <= i < di ==> out[2 * n - (di - mpos) + i] == out[i]
    ensures forall i :: mpos + n + c <= i < out.Length ==> out[i] == old(out[i])
  {
    var d := di - mpos;
    CopyWithin(out, mpos + n, mpos, c);
    forall i | di <= i < mpos + n + c
      ensures out[i] == out[i - d]
    {
      if mpos + n <= i {
        var j := i - n;
        assert out[i] == out[j];
        if j < di { assert out[n - d + j] == out[j]; }
      }
    }
    if c == n {
      forall i | mpos <= i < di
        ensures out[2 * n - d + i] == out[i]
      {
        var j := n - d + i;
        assert out[n + j] == out[j] == out[i];
      }
    }
  }

  /** LZVN's match copy, with its two error checks. */
  method LzvnCopyMatch(dst: array<byte>, dpos: nat, D: int, M: nat) returns (ok: bool)
    requires dpos <= dst.Length
    modifies dst
    ensures ok <==> 1 <= D <= dpos && dpos + M <= dst.Length
    ensures ok ==> dst[..dpos + M] == LzCopy(old(dst[..dpos]), D, M)
    ensures !ok ==> dst[..] == old(dst[..])
  {
    if D <= 0 || dpos - D < 0 { return false; }
    if dpos + M > dst.Length { return false; }
    var src := dpos - D;
    if D >= M {
      CopyWithin(dst, dpos, src, M);
    } else {
      CopyWithin(dst, dpos, src, D);
      var filled := D;
      while filled < M
        invariant D <= filled <= M
        invariant forall i :: 0 <= i < dpos ==> dst[i] == old(dst[i])
        invariant forall i :: dpos <= i < dpos + filled ==> dst[i] == dst[i - D]
        invariant filled < M ==> forall i :: dpos <= i < dpos + D ==> dst[filled - D + i] == dst[i]
      {
        var n := filled;
        if filled + n > M {
          n := M - filled;
        }
        FillPattern(dst, dpos, D, filled, n);
        filled := filled + n;
      }
    }
    ghost var was := old(dst[..dpos]);
    assert dst[..dpos + M][..dpos] == was;
    LzCopyUnique(was, D, M, dst[..dpos + M]);
    return true;
  }

  /** One doubling step of LZVN's copy, whose pattern starts at dpos. */
  method FillPattern(dst: array<byte>, dpos: nat, d: nat, n: nat, c: nat)
    requires 1 <= d <= dpos && d <= n && 0 < c <= n && dpos + n + c <= dst.Length
    requires forall i :: dpos <= i < dpos + n ==> dst[i] == dst[i - d]
    requires forall i :: dpos <= i < dpos + d ==> dst[n - d + i] == dst[i]
    modifies dst
    ensures forall i :: 0 <= i < dpos + n ==> dst[i] == old(dst[i])
    ensures forall i :: dpos <= i < dpos + n + c ==> dst[i] == dst[i - d]
    ensures c == n ==> forall i :: dpos <= i < dpos + d ==> dst[2 * n - d + i] == dst[i]
  {
    CopyWithin(dst, dpos + n, dpos, c);
    forall i | dpos <= i < dpos + n + c
      ensures dst[i] == dst[i - d]
    {
      if dpos + n <= i {
        var j := i - n;
        assert dst[i] == dst[j];
        if j < dpos + d { assert dst[n - d + j] == dst[j]; }
      }
    }
    if c == n {
      forall i | dpos <= i < dpos + d
        ensures dst[2 * n - d + i] == dst[i]
      {
        var j := n - d + i;
        assert dst[n + j] == dst[j] == dst[i];
      }
    }
  }
}
