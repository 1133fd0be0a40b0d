/** Positional notation in base 256, truncation to bytes, shifting and "or" of natural numbers. */
module Bytes {
  type byte = b: int | 0 <= b < 256

  function Pow256(n: nat): (p: nat)
    ensures p >= 1
  {
    if n == 0 then 1 else 256 * Pow256(n - 1)
  }

  /** The number whose least significant byte comes first. */
  function LeValue(bs: seq<byte>): nat {
    if bs == [] then 0 else bs[0] + 256 * LeValue(bs[1..])
  }

  /** The `n` least significant bytes of `v` in two's complement, least significant first. */
  function LeBytes(v: int, n: nat): (bs: seq<byte>)
    ensures |bs| == n
    decreases n
  {
    if n == 0 then [] else [v % 256] + LeBytes(v / 256, n - 1)
  }

  /** The number that is left when `v` is cut to `n` bytes. */
  function Low(v: int, n: nat): nat
    decreases n
  {
    if n == 0 then 0 else v % 256 + 256 * Low(v / 256, n - 1)
  }

  function Reversed<T>(s: seq<T>): (r: seq<T>)
    ensures |r| == |s|
    ensures forall i :: 0 <= i < |s| ==> r[i] == s[|s| - 1 - i]
  {
    seq(|s|, i requires 0 <= i < |s| => s[|s| - 1 - i])
  }

  function Zeros(n: nat): (z: seq<byte>)
    ensures |z| == n
  {
    seq(n, i => 0)
  }

  // ---------------------------------------------------------------------------
  // Values and bytes

  lemma {:induction false} Pow256Monotone(m: nat, n: nat)
    requires m <= n
    ensures Pow256(m) <= Pow256(n)
  {
    if m > 0 {
      Pow256Monotone(m - 1, n - 1);
    }
  }

  lemma {:induction false} LeValueBound(bs: seq<byte>)
    ensures LeValue(bs) < Pow256(|bs|)
  {
    if bs != [] {
      LeValueBound(bs[1..]);
    }
  }

  /** Zero bytes in the most significant places do not count. */
  lemma {:induction false} LeValuePadded(bs: seq<byte>, n: nat)
    ensures LeValue(bs + Zeros(n)) == LeValue(bs)
    decreases |bs| + n
  {
    if bs != [] {
      LeValuePadded(bs[1..], n);
      assert (bs + Zeros(n))[1..] == bs[1..] + Zeros(n);
    } else if n > 0 {
      LeValuePadded(bs, n - 1);
      assert (bs + Zeros(n))[1..] == bs + Zeros(n - 1);
    }
  }

  /** The top bit of the most significant byte tells whether the value is in the upper half. */
  lemma {:induction false} TopBit(le: seq<byte>)
    requires le != []
    ensures le[|le| - 1] >= 128 <==> 2 * LeValue(le) >= Pow256(|le|)
  {
    if |le| == 1 {
      assert le[1..] == [];
    } else {
      TopBit(le[1..]);
      assert Pow256(|le| - 1) == 256 * Pow256(|le| - 2);
    }
  }

  lemma {:induction false} LeValueOfBytes(v: int, n: nat)
    ensures LeValue(LeBytes(v, n)) == Low(v, n)
    decreases n
  {
    if n > 0 {
      LeValueOfBytes(v / 256, n - 1);
    }
  }

  lemma Split256(m: int, low: byte, high: int)
    requires m == low + 256 * high
    ensures m % 256 == low && m / 256 == high
  {}

  lemma {:induction false} LeBytesOfValue(bs: seq<byte>)
    ensures LeBytes(LeValue(bs), |bs|) == bs
  {
    if bs != [] {
      Split256(LeValue(bs), bs[0], LeValue(bs[1..]));
      LeBytesOfValue(bs[1..]);
    }
  }

  lemma {:induction false} LeBytesPrefix(v: int, n: nat, k: nat)
    requires k <= n
    ensures LeBytes(v, n)[..k] == LeBytes(v, k)
    decreases k
  {
    if k > 0 {
      LeBytesPrefix(v / 256, n - 1, k - 1);
      assert LeBytes(v, n)[..k] == [v % 256] + LeBytes(v / 256, n - 1)[..k - 1];
    }
  }

  // ---------------------------------------------------------------------------
  // Cutting to bytes

  lemma {:induction false} LowOfSmall(v: nat, n: nat)
    requires v < Pow256(n)
    ensures Low(v, n) == v
    decreases n
  {
    if n > 0 {
      LowOfSmall(v / 256, n - 1);
    }
  }

  /** The low bytes of a number are those of what is left when it is cut to more bytes. */
  lemma {:induction false} LeBytesOfLow(v: int, n: nat, k: nat)
    requires k <= n
    ensures LeBytes(Low(v, n), k) == LeBytes(v, k)
    decreases k
  {
    if k > 0 {
      Split256(Low(v, n), v % 256, Low(v / 256, n - 1));
      LeBytesOfLow(v / 256, n - 1, k - 1);
    }
  }

  lemma {:induction false} LowMinusPow(v: int, n: nat)
    ensures Low(v - Pow256(n), n) == Low(v, n)
    decreases n
  {
    if n > 0 {
      Split256(v - Pow256(n), v % 256, v / 256 - Pow256(n - 1));
      LowMinusPow(v / 256, n - 1);
    }
  }

  /** Numbers that agree in their low bytes and are near each other are equal. */
  lemma {:induction false} LowDetermines(a: int, b: int, n: nat)
    requires Low(a, n) == Low(b, n) && 0 - Pow256(n) < a - b < Pow256(n)
    ensures a == b
    decreases n
  {
    if n > 0 {
      Split256(Low(a, n), a % 256, Low(a / 256, n - 1));
      Split256(Low(b, n), b % 256, Low(b / 256, n - 1));
      LowDetermines(a / 256, b / 256, n - 1);
    }
  }

  /** What is left is the remainder modulo 256^n. */
  lemma {:induction false} LowIsRemainder(v: int, n: nat)
    ensures Low(v, n) == v % Pow256(n)
    decreases n
  {
    if n > 0 {
      LowIsRemainder(v / 256, n - 1);
      RemainderTimes256(v, Pow256(n - 1));
    }
  }

  lemma RemainderTimes256(v: int, p: nat)
    requires p >= 1
    ensures v % (256 * p) == v % 256 + 256 * ((v / 256) % p)
  {
    var q, r := (v / 256) / p, (v / 256) % p;
    assert v / 256 == p * q + r;
    QuotientUnique(v, 256 * p, q, v % 256 + 256 * r);
  }

  lemma QuotientUnique(v: int, d: nat, q: int, r: nat)
    requires v == d * q + r && r < d
    ensures v / d == q && v % d == r
  {
    MultipleInGap(d, q - v / d, v % d - r);
  }

  /** The only multiple of `d` nearer to zero than `d` is zero. */
  lemma MultipleInGap(d: int, k: int, m: int)
    requires d * k == m && -d < m < d
    ensures k == 0
  {
    assert k >= 1 ==> d * k >= d;
    assert k <= -1 ==> d * k <= -d;
  }

  // ---------------------------------------------------------------------------
  // Bits

  function ShiftLeft(v: nat, bits: nat): nat {
    if bits == 0 then v else 2 * ShiftLeft(v, bits - 1)
  }

  function BitOr(a: nat, b: nat): nat
    decreases a + b
  {
    if a == 0 && b == 0 then 0
    else (if a % 2 == 1 || b % 2 == 1 then 1 else 0) + 2 * BitOr(a / 2, b / 2)
  }

  /** The `k` least significant bits of `b` are clear. */
  ghost predicate LowClear(b: nat, k: nat)
    decreases k
  {
    k == 0 || (b % 2 == 0 && LowClear(b / 2, k - 1))
  }

  /** Whether `a` needs no more than `k` bits. */
  ghost predicate HighClear(a: nat, k: nat)
    decreases k
  {
    if k == 0 then a == 0 else HighClear(a / 2, k - 1)
  }

  lemma {:induction false} BitOrZero(b: nat)
    ensures BitOr(0, b) == b
    decreases b
  {
    if b > 0 {
      BitOrZero(b / 2);
    }
  }

  /** "Or" is "plus" when the low bits of one operand and the high bits of the other are clear. */
  lemma {:induction false} BitOrDisjoint(a: nat, b: nat, k: nat)
    requires HighClear(a, k) && LowClear(b, k)
    ensures BitOr(a, b) == a + b
    decreases k
  {
    if k == 0 {
      BitOrZero(b);
    } else {
      BitOrDisjoint(a / 2, b / 2, k - 1);
    }
  }

  lemma ShiftByte(v: nat, bits: nat)
    ensures ShiftLeft(v, bits + 8) == 256 * ShiftLeft(v, bits)
  {
    assert ShiftLeft(v, bits + 8)
      == 2 * ShiftLeft(v, bits + 7) == 4 * ShiftLeft(v, bits + 6) == 8 * ShiftLeft(v, bits + 5);
    assert ShiftLeft(v, bits + 5)
      == 2 * ShiftLeft(v, bits + 4) == 4 * ShiftLeft(v, bits + 3) == 8 * ShiftLeft(v, bits + 2);
    assert ShiftLeft(v, bits + 2) == 2 * ShiftLeft(v, bits + 1) == 4 * ShiftLeft(v, bits);
  }

  lemma LowClearDouble(b: nat, k: nat)
    requires LowClear(b, k)
    ensures LowClear(2 * b, k + 1)
  {
    assert (2 * b) / 2 == b;
  }

  lemma LowClearByte(b: nat, k: nat)
    requires LowClear(b, k)
    ensures LowClear(256 * b, k + 8)
  {
    LowClearDouble(b, k);
    LowClearDouble(2 * b, k + 1);
    LowClearDouble(4 * b, k + 2);
    LowClearDouble(8 * b, k + 3);
    LowClearDouble(16 * b, k + 4);
    LowClearDouble(32 * b, k + 5);
    LowClearDouble(64 * b, k + 6);
    LowClearDouble(128 * b, k + 7);
  }

  lemma HighClearByte(a: nat, k: nat)
    requires HighClear(a / 256, k)
    ensures HighClear(a, k + 8)
  {
    assert HighClear(a / 128, k + 1);
    assert HighClear(a / 64, k + 2);
    assert HighClear(a / 32, k + 3);
    assert HighClear(a / 16, k + 4);
    assert HighClear(a / 8, k + 5);
    assert HighClear(a / 4, k + 6);
    assert HighClear(a / 2, k + 7);
  }

  lemma {:induction false} HighClearBelow(a: nat, n: nat)
    requires a < Pow256(n)
    ensures HighClear(a, 8 * n)
    decreases n
  {
    if n > 0 {
      HighClearBelow(a / 256, n - 1);
      HighClearByte(a, 8 * (n - 1));
    }
  }

  // ---------------------------------------------------------------------------
  // All ones, shifted and cut

  lemma {:induction false} LowOfOnes(n: nat, k: nat)
    requires k <= n
    ensures Low(Pow256(n) - 1, k) == Pow256(k) - 1
    decreases k
  {
    if k > 0 {
      Split256(Pow256(n) - 1, 255, Pow256(n - 1) - 1);
      LowOfOnes(n - 1, k - 1);
    }
  }

  /** Ones shifted by `size` bytes and cut to `width` are ones in all bytes but the low `size`. */
  lemma {:induction false} LowOfShiftedOnes(n: nat, size: nat, width: nat)
    requires size <= width <= n
    ensures Low(ShiftLeft(Pow256(n) - 1, 8 * size), width) == Pow256(width) - Pow256(size)
    decreases size
  {
    if size == 0 {
      LowOfOnes(n, width);
    } else {
      var x := ShiftLeft(Pow256(n) - 1, 8 * (size - 1));
      ShiftByte(Pow256(n) - 1, 8 * (size - 1));
      Split256(256 * x, 0, x);
      LowOfShiftedOnes(n, size - 1, width - 1);
    }
  }

  lemma {:induction false} OnesAreLowClear(size: nat, width: nat)
    requires size <= width
    ensures Pow256(width) >= Pow256(size) && LowClear(Pow256(width) - Pow256(size), 8 * size)
    decreases size
  {
    Pow256Monotone(size, width);
    if size > 0 {
      OnesAreLowClear(size - 1, width - 1);
      LowClearByte(Pow256(width - 1) - Pow256(size - 1), 8 * (size - 1));
    }
  }
}
