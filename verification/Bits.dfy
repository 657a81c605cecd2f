/** Bytes, powers of two, Go's 64-bit shifts and masks, and bit sequences (least significant bit first). */
module Bits {

  type byte = x: int | 0 <= x < 256

  datatype Option<+T> = None | Some(value: T)

  function Min(a: int, b: int): int { if a < b then a else b }

  function Max(a: int, b: int): int { if a < b then b else a }

  // ---------------------------------------------------------------- powers of two

  function Pow2(n: nat): (p: nat)
    ensures p >= 1
  {
    if n == 0 then 1 else 2 * Pow2(n - 1)
  }

  lemma {:induction false} Pow2Add(a: nat, b: nat)
    ensures Pow2(a + b) == Pow2(a) * Pow2(b)
  {
    if a == 0 {
    } else {
      Pow2Add(a - 1, b);
      assert Pow2(a + b) == 2 * Pow2(a - 1 + b);
    }
  }

  /** A value of n bits shifted up by k fits n + k bits, with room for k more bits below. */
  lemma Pow2Scaled(a: nat, n: nat, k: nat)
    requires a < Pow2(n)
    ensures 0 <= a * Pow2(k) && a * Pow2(k) + Pow2(k) <= Pow2(n + k)
  {
    Pow2Add(n, k);
    MulUpper(a, Pow2(n), Pow2(k));
    MulLeq(0, a, Pow2(k));
  }

  lemma {:induction false} Pow2Mono(a: nat, b: nat)
    requires a <= b
    ensures Pow2(a) <= Pow2(b)
  {
    if a == b {
    } else {
      Pow2Mono(a, b - 1);
    }
  }

  lemma Pow2Values()
    ensures Pow2(0) == 1 && Pow2(1) == 2 && Pow2(2) == 4 && Pow2(3) == 8 && Pow2(4) == 16
    ensures Pow2(5) == 32 && Pow2(6) == 64 && Pow2(7) == 128 && Pow2(8) == 256
    ensures Pow2(9) == 512 && Pow2(10) == 1024 && Pow2(11) == 2048 && Pow2(12) == 4096
    ensures Pow2(13) == 8192 && Pow2(14) == 16384 && Pow2(15) == 32768 && Pow2(16) == 65536
  {
    assert Pow2(4) == 16;
    assert Pow2(8) == 256;
    assert Pow2(12) == 4096;
  }

  lemma Pow2Big()
    ensures Pow2(20) == 0x10_0000 && Pow2(31) == 0x8000_0000 && Pow2(32) == 0x1_0000_0000
    ensures Pow2(40) == 0x100_0000_0000 && Pow2(60) == 0x1000_0000_0000_0000
    ensures Pow2(64) == 0x1_0000_0000_0000_0000
  {
    Pow2Values();
    Pow2Add(10, 10);
    Pow2Add(20, 11);
    Pow2Add(16, 16);
    Pow2Add(20, 20);
    Pow2Add(40, 20);
    Pow2Add(32, 32);
  }

  /** 2^64. Written as a number so that the verifier never unfolds Pow2 64 times. */
  const U64: nat := 0x1_0000_0000_0000_0000

  lemma Pow2Word(n: nat)
    requires n <= 64
    ensures Pow2(n) <= U64 && (n == 64 ==> Pow2(n) == U64)
  {
    Pow2Big();
    Pow2Mono(n, 64);
  }

  /** The number of binary digits of `x`: 32 - bits.LeadingZeros32(x). */
  function BitLen(x: nat): nat {
    if x == 0 then 0 else 1 + BitLen(x / 2)
  }

  lemma {:induction false} BitLenBounds(x: nat)
    requires x > 0
    ensures BitLen(x) >= 1 && Pow2(BitLen(x) - 1) <= x < Pow2(BitLen(x))
  {
    if x / 2 == 0 {
    } else {
      BitLenBounds(x / 2);
    }
  }

  lemma {:induction false} BitLenUnique(x: nat, n: nat)
    requires n >= 1 && Pow2(n - 1) <= x < Pow2(n)
    ensures BitLen(x) == n
  {
    if n == 1 {
    } else {
      BitLenUnique(x / 2, n - 1);
    }
  }

  // ---------------------------------------------------------------- division and remainder

  lemma MulAtLeast(k: int, d: int)
    requires k >= 1 && d > 0
    ensures k * d >= d
  {
  }

  lemma MulDistributes(a: int, b: int, d: int)
    ensures (a + b) * d == a * d + b * d
    ensures (a - b) * d == a * d - b * d
  {
  }

  lemma MulLeq(a: int, b: int, d: int)
    requires a <= b && d > 0
    ensures a * d <= b * d
  {
  }

  lemma MulUpper(a: int, b: int, d: int)
    requires a < b && 0 < d
    ensures a * d + d <= b * d
  {
    MulLeq(a + 1, b, d);
    MulDistributes(a, 1, d);
  }

  lemma MulBelow(a: int, b: int, d: int, r: int)
    requires d > 0 && 0 <= r && a * d + r < b * d
    ensures a < b
  {
    if b <= a { MulLeq(b, a, d); }
  }

  lemma SmallMod(x: nat, d: int)
    requires x < d
    ensures x % d == x && x / d == 0
  {
    DivModUnique(x, d, 0, x);
  }

  lemma SameQuotient(d: int, q1: int, r1: int, q2: int, r2: int)
    requires 0 < d && 0 <= r1 < d && 0 <= r2 < d && q1 * d + r1 == q2 * d + r2
    ensures q1 == q2 && r1 == r2
  {
    MulDistributes(q1, q2, d);
    MulDistributes(q2, q1, d);
    if q1 > q2 {
      MulAtLeast(q1 - q2, d);
    } else if q2 > q1 {
      MulAtLeast(q2 - q1, d);
    }
  }

  lemma DivMod(x: int, d: int)
    requires 0 < d
    ensures x == x / d * d + x % d && 0 <= x % d < d
  {
  }

  lemma DivNonNegative(x: nat, d: int)
    requires 0 < d
    ensures x / d >= 0
  {
  }

  lemma DivModUnique(x: int, d: int, q: int, r: int)
    requires 0 < d && 0 <= r < d && x == q * d + r
    ensures x / d == q && x % d == r
  {
    DivMod(x, d);
    SameQuotient(d, q, r, x / d, x % d);
  }

  lemma MulAssoc(a: int, b: int, c: int)
    ensures a * b * c == a * (b * c)
  {
  }

  // ---------------------------------------------------------------- shifts and masks

  /** x << n. */
  function Shl(x: nat, n: nat): nat {
    if n == 0 then x else 2 * Shl(x, n - 1)
  }

  /** x >> n. */
  function Shr(x: nat, n: nat): nat {
    if n == 0 then x else Shr(x / 2, n - 1)
  }

  /** x & ((1 << n) - 1). */
  function Low(x: nat, n: nat): nat {
    if n == 0 then 0 else x % 2 + 2 * Low(x / 2, n - 1)
  }

  lemma {:induction false} ShlMul(x: nat, n: nat)
    ensures Shl(x, n) == x * Pow2(n)
  {
    if n == 0 {
    } else {
      ShlMul(x, n - 1);
      MulAssoc(2, x, Pow2(n - 1));
    }
  }

  lemma TimesTwice(a: int, b: int)
    ensures a * (2 * b) == 2 * (a * b)
  {
  }

  /** x is its high part shifted up plus its low part, and the low part fits n bits. */
  lemma {:induction false} ShrLow(x: nat, n: nat)
    ensures Low(x, n) < Pow2(n)
    ensures x == Low(x, n) + Shr(x, n) * Pow2(n)
  {
    if n == 0 {
    } else {
      var p, high, low := Pow2(n - 1), Shr(x / 2, n - 1), Low(x / 2, n - 1);
      ShrLow(x / 2, n - 1);
      TimesTwice(high, p);
      assert Shr(x, n) * Pow2(n) == 2 * (high * p) && Low(x, n) == x % 2 + 2 * low;
    }
  }

  lemma ShrLowIsDivMod(x: nat, n: nat)
    ensures Shr(x, n) == x / Pow2(n) && Low(x, n) == x % Pow2(n)
  {
    ShrLow(x, n);
    DivModUnique(x, Pow2(n), Shr(x, n), Low(x, n));
  }

  lemma ShrLowUnique(x: nat, n: nat, high: nat, low: nat)
    requires low < Pow2(n) && x == low + high * Pow2(n)
    ensures Shr(x, n) == high && Low(x, n) == low
  {
    ShrLow(x, n);
    SameQuotient(Pow2(n), high, low, Shr(x, n), Low(x, n));
  }

  lemma ShrBelow(x: nat, n: nat, m: nat)
    requires x < Pow2(n + m)
    ensures Shr(x, n) < Pow2(m)
  {
    ShrLow(x, n);
    Pow2Add(m, n);
    MulBelow(Shr(x, n), Pow2(m), Pow2(n), Low(x, n));
  }

  /** x << n on uint64; a count of 64 or more (or a negative int turned into uint) gives 0. */
  function Shl64(x: nat, n: int): nat {
    if 0 <= n < 64 then Shl(x, n) % U64 else 0
  }

  /** x >> n on uint64, with the same rule for large counts. */
  function Shr64(x: nat, n: int): nat {
    if 0 <= n < 64 then Shr(x, n) else 0
  }

  /** x & ((1 << n) - 1): with a count of 64 or more the mask is all ones. */
  function Low64(x: nat, n: int): nat {
    if 0 <= n < 64 then Low(x, n) else x
  }

  lemma ShlExact(x: nat, n: nat)
    requires n < 64 && 0 <= x * Pow2(n) < U64
    ensures Shl64(x, n) == Shl(x, n) == x * Pow2(n)
  {
    ShlMul(x, n);
  }

  /** Bitwise or. */
  function Or(a: nat, b: nat): nat {
    if a == 0 && b == 0 then 0
    else (if a % 2 == 1 || b % 2 == 1 then 1 else 0) + 2 * Or(a / 2, b / 2)
  }

  /** Bitwise exclusive or. */
  function Xor(a: nat, b: nat): nat {
    if a == 0 && b == 0 then 0
    else (if a % 2 != b % 2 then 1 else 0) + 2 * Xor(a / 2, b / 2)
  }

  lemma {:induction false} OrZero(b: nat)
    ensures Or(0, b) == b
  {
    if b == 0 {
    } else {
      OrZero(b / 2);
    }
  }

  lemma {:induction false} OrCommutes(a: nat, b: nat)
    ensures Or(a, b) == Or(b, a)
  {
    if a == 0 && b == 0 {
    } else {
      OrCommutes(a / 2, b / 2);
    }
  }

  /** Or of disjoint bit ranges is addition. */
  lemma {:induction false} OrDisjoint(a: nat, y: nat, n: nat)
    requires a < Pow2(n)
    ensures Or(a, Shl(y, n)) == Or(Shl(y, n), a) == a + Shl(y, n)
  {
    if n == 0 {
      OrZero(y);
    } else {
      OrDisjoint(a / 2, y, n - 1);
    }
    OrCommutes(a, Shl(y, n));
  }

  /** The low n bits of a ^ b vanish exactly when a and b agree on them. */
  lemma {:induction false} XorLow(a: nat, b: nat, n: nat)
    ensures Low(Xor(a, b), n) == 0 <==> Low(a, n) == Low(b, n)
  {
    if n == 0 {
    } else {
      XorLow(a / 2, b / 2, n - 1);
    }
  }

  // ---------------------------------------------------------------- bit sequences

  lemma SeqAssoc<T>(a: seq<T>, b: seq<T>, c: seq<T>)
    ensures a + b + c == a + (b + c)
  {
  }

  /** The low `n` bits of `v`, least significant first. */
  function ToBits(n: nat, v: nat): (s: seq<bool>)
    ensures |s| == n
  {
    if n == 0 then [] else [v % 2 == 1] + ToBits(n - 1, v / 2)
  }

  function FromBits(s: seq<bool>): nat {
    if s == [] then 0 else (if s[0] then 1 else 0) + 2 * FromBits(s[1..])
  }

  lemma {:induction false} FromToBits(n: nat, v: nat)
    requires v < Pow2(n)
    ensures FromBits(ToBits(n, v)) == v
  {
    if n == 0 {
    } else {
      FromToBits(n - 1, v / 2);
      assert ToBits(n, v)[1..] == ToBits(n - 1, v / 2);
    }
  }

  lemma ToBitsInjective(n: nat, x: nat, y: nat)
    requires x < Pow2(n) && y < Pow2(n) && ToBits(n, x) == ToBits(n, y)
    ensures x == y
  {
    FromToBits(n, x);
    FromToBits(n, y);
  }

  /** Writing y above x concatenates their bits. */
  lemma {:induction false} ToBitsConcat(a: nat, x: nat, b: nat, y: nat)
    requires x < Pow2(a)
    ensures ToBits(a + b, x + y * Pow2(a)) == ToBits(a, x) + ToBits(b, y)
  {
    if a == 0 {
      assert ToBits(a, x) + ToBits(b, y) == ToBits(b, y);
    } else {
      var v := x + y * Pow2(a);
      var p := Pow2(a - 1);
      assert y * Pow2(a) == 2 * (y * p);
      assert v / 2 == x / 2 + y * p && v % 2 == x % 2;
      ToBitsConcat(a - 1, x / 2, b, y);
      assert ToBits(a, x) + ToBits(b, y) == [x % 2 == 1] + (ToBits(a - 1, x / 2) + ToBits(b, y));
    }
  }

  /** Putting n bits above x bits. */
  lemma JoinBits(x: nat, low: nat, n: nat, high: nat) returns (v: nat)
    requires low < Pow2(x) && high < Pow2(n)
    ensures v < Pow2(n + x) && ToBits(n + x, v) == ToBits(x, low) + ToBits(n, high)
    ensures Low(v, x) == low && Shr(v, x) == high
  {
    Pow2Scaled(high, n, x);
    v := low + high * Pow2(x);
    ToBitsConcat(x, low, n, high);
    ShrLowUnique(v, x, high, low);
  }

  /** Cutting an n-bit value at bit m. */
  lemma CutBits(n: nat, m: nat, a: nat)
    requires m <= n && a < Pow2(n)
    ensures Low(a, m) < Pow2(m) && Shr(a, m) < Pow2(n - m) && (Shr(a, m) == 0 ==> Low(a, m) == a)
    ensures ToBits(n, a) == ToBits(m, Low(a, m)) + ToBits(n - m, Shr(a, m))
  {
    ShrLow(a, m);
    ShrBelow(a, m, n - m);
    ToBitsConcat(m, Low(a, m), n - m, Shr(a, m));
  }

  lemma ToBitsLow(n: nat, v: nat)
    ensures Low(v, n) < Pow2(n) && ToBits(n, Low(v, n)) == ToBits(n, v)
  {
    ShrLow(v, n);
    ToBitsConcat(n, Low(v, n), 0, Shr(v, n));
  }

  function Zeros(n: nat): (s: seq<bool>)
    ensures |s| == n
  {
    seq(n, _ => false)
  }

  lemma {:induction false} ToBitsZero(n: nat)
    ensures ToBits(n, 0) == Zeros(n)
  {
    if n == 0 {
    } else {
      ToBitsZero(n - 1);
    }
  }

  /** The bits of a byte string, first byte first. */
  function BytesToBits(bs: seq<byte>): (s: seq<bool>)
    ensures |s| == 8 * |bs|
  {
    if bs == [] then [] else ToBits(8, bs[0]) + BytesToBits(bs[1..])
  }

  lemma {:induction false} BytesToBitsConcat(a: seq<byte>, b: seq<byte>)
    ensures BytesToBits(a + b) == BytesToBits(a) + BytesToBits(b)
  {
    if a == [] {
      assert a + b == b;
    } else {
      assert (a + b)[1..] == a[1..] + b;
      BytesToBitsConcat(a[1..], b);
    }
  }

  lemma BytesToBitsSplit(s: seq<byte>, i: nat)
    requires i <= |s|
    ensures BytesToBits(s) == BytesToBits(s[..i]) + BytesToBits(s[i..])
  {
    assert s == s[..i] + s[i..];
    BytesToBitsConcat(s[..i], s[i..]);
  }

  /** Little-endian value of a byte string (encoding/binary's LittleEndian). */
  function LE(bs: seq<byte>): nat {
    if bs == [] then 0 else bs[0] + 256 * LE(bs[1..])
  }

  lemma {:induction false} LEBits(bs: seq<byte>)
    ensures LE(bs) < Pow2(8 * |bs|)
    ensures ToBits(8 * |bs|, LE(bs)) == BytesToBits(bs)
  {
    if bs == [] {
    } else {
      LEBits(bs[1..]);
      Pow2Values();
      Pow2Add(8, 8 * |bs[1..]|);
      ToBitsConcat(8, bs[0], 8 * |bs[1..]|, LE(bs[1..]));
    }
  }

  /** Bytes of a 32-bit and of a 64-bit field. */
  const WORD_32: nat := 4
  const WORD_64: nat := 8

  /** The n-byte little-endian form of v. */
  function PutLE(n: nat, v: nat): (bs: seq<byte>)
    ensures |bs| == n
  {
    if n == 0 then [] else [v % 256] + PutLE(n - 1, v / 256)
  }

  lemma {:induction false} PutLERoundTrip(n: nat, v: nat)
    requires v < Pow2(8 * n)
    ensures LE(PutLE(n, v)) == v
  {
    if n == 0 {
    } else {
      Pow2Values();
      Pow2Add(8, 8 * (n - 1));
      PutLERoundTrip(n - 1, v / 256);
      assert PutLE(n, v)[1..] == PutLE(n - 1, v / 256);
    }
  }

  lemma LEPrefix(bs: seq<byte>, k: nat)
    requires k <= |bs|
    ensures Low(LE(bs), 8 * k) == LE(bs[..k])
  {
    LEBits(bs[..k]);
    LEConcat(bs[..k], bs[k..]);
    assert bs == bs[..k] + bs[k..];
    ShrLowUnique(LE(bs), 8 * k, LE(bs[k..]), LE(bs[..k]));
  }

  lemma {:induction false} LEConcat(a: seq<byte>, b: seq<byte>)
    ensures LE(a + b) == LE(a) + LE(b) * Pow2(8 * |a|)
  {
    if a == [] {
      assert a + b == b;
    } else {
      assert (a + b)[1..] == a[1..] + b;
      LEConcat(a[1..], b);
      Pow2Values();
      Pow2Add(8, 8 * |a[1..]|);
      assert 256 * (LE(b) * Pow2(8 * |a[1..]|)) == LE(b) * (256 * Pow2(8 * |a[1..]|));
    }
  }

  lemma {:induction false} LEInjective(a: seq<byte>, b: seq<byte>)
    requires |a| == |b| && LE(a) == LE(b)
    ensures a == b
  {
    if a == [] {
    } else {
      LEInjective(a[1..], b[1..]);
    }
  }
}
