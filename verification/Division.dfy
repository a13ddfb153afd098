/**
 The 64-bit division helpers of kernal/klib.c, which the compiler calls on a 32-bit machine:
 shift-subtract long division, and signed division on top of it.
 */
module Division {
  import opened Words

  type u64 = x: int | 0 <= x < 0x1_0000_0000_0000_0000
  type i64 = x: int | -0x8000_0000_0000_0000 <= x < 0x8000_0000_0000_0000

  /** The value an unsigned 64-bit expression keeps of an integer. */
  function Wrap64(x: int): u64 {
    x % 0x1_0000_0000_0000_0000
  }

  /** The same for a signed one, two's complement. */
  function Signed64(x: int): i64 {
    if Wrap64(x) < 0x8000_0000_0000_0000 then Wrap64(x) else Wrap64(x) - 0x1_0000_0000_0000_0000
  }

  lemma Doubling(d0: nat, k: nat)
    ensures d0 * Pow2(k + 1) == 2 * (d0 * Pow2(k))
  {
  }

  /** Setting bit i adds 2^i when no bit from i down is set. */
  lemma {:induction false} SetLowBit(q: nat, i: nat)
    requires Multiple(q, i + 1)
    ensures SetBit(q, i) == q + Pow2(i)
  {
    MultipleHalves(q, i);
    if i > 0 {
      SetLowBit(q / 2, i - 1);
    }
  }

  /** q is a multiple of 2^k. */
  ghost predicate Multiple(q: nat, k: nat) {
    k == 0 || (q % 2 == 0 && Multiple(q / 2, k - 1))
  }

  lemma MultipleHalves(q: nat, i: nat)
    requires Multiple(q, i + 1)
    ensures q % 2 == 0 && Multiple(q / 2, i)
  {
  }

  lemma {:induction false} MultipleAfterSet(q: nat, i: nat)
    requires Multiple(q, i + 1)
    ensures Multiple(q, i) && Multiple(q + Pow2(i), i)
  {
    if i > 0 {
      MultipleAfterSet(q / 2, i - 1);
      assert (q + Pow2(i)) / 2 == q / 2 + Pow2(i - 1);
    }
  }

  lemma {:induction false} ZeroIsMultiple(k: nat)
    ensures Multiple(0, k)
  {
    if k > 0 { ZeroIsMultiple(k - 1); }
  }

  /**
   __udivdi3: the floor of the quotient for every dividend and every divisor but 0, for
   which it answers 1. No shift loses a bit.
   */
  method UDiv(n: u64, d: u64) returns (q: u64)
    ensures d == 0 ==> q == 1
    ensures d > 0 ==> q * d <= n < q * d + d
  {
    if d == 0 { return 1; }
    if d > n { return 0; }
    if d == n {
      assert 1 * d == d;
      return 1;
    }
    var dd, sh := Align(n, d);
    q := Subtract(n, d, dd, sh);
  }

  /** The alignment of __udivdi3: the largest shift of the divisor that is at most the dividend. */
  method Align(n: u64, d: u64) returns (dd: u64, sh: nat)
    requires 0 < d < n
    ensures dd == d * Pow2(sh) <= n < 2 * dd
  {
    dd, sh := d, 0;
    assert Pow2(0) == 1;
    while dd <= n && dd < 0x8000_0000_0000_0000
      invariant dd == d * Pow2(sh) && (sh > 0 ==> dd / 2 <= n) && (sh == 0 ==> dd <= n) && (sh > 0 ==> dd % 2 == 0)
      decreases 0x1_0000_0000_0000_0000 - dd
    {
      assert 2 * dd < 0x1_0000_0000_0000_0000;  // the shift loses no bit
      Doubling(d, sh);
      dd, sh := Wrap64(2 * dd), sh + 1;
    }
    if dd > n {
      Doubling(d, sh - 1);
      dd, sh := dd / 2, sh - 1;
    }
  }

  /** The subtractions of __udivdi3, from the highest quotient bit down. */
  method Subtract(n: u64, d: u64, aligned: u64, sh: nat) returns (q: u64)
    requires 0 < d < n && aligned == d * Pow2(sh) <= n < 2 * aligned
    ensures q * d <= n < q * d + d
  {
    var rest: u64, dd: u64, i: int := n, aligned, sh;
    q := 0;
    Doubling(d, sh);
    ZeroIsMultiple(sh + 1);
    while i >= 0
      invariant -1 <= i <= sh && n == q * d + rest && Multiple(q, i + 1)
      invariant rest < d * Pow2(i + 1) && (i >= 0 ==> dd == d * Pow2(i))
      decreases i
    {
      Doubling(d, i);
      MultipleAfterSet(q, i);
      if rest >= dd {
        SetLowBit(q, i);
        Distribute(q, Pow2(i), d);
        QuotientFits(q + Pow2(i), d, n);
        rest, q := rest - dd, SetBit(q, i);
      }
      if i > 0 { Doubling(d, i - 1); }
      dd, i := dd / 2, i - 1;
    }
    assert d * Pow2(0) == d;
  }

  lemma Distribute(a: nat, b: nat, d: nat)
    ensures (a + b) * d == a * d + d * b
  {
  }

  lemma QuotientFits(q: nat, d: nat, n: u64)
    requires d > 0 && q * d <= n
    ensures q <= n
  {
    assert q <= q * d;
  }

  /** __umoddi3: the remainder; 0 for the divisor 0. */
  method UMod(n: u64, d: u64) returns (r: u64)
    ensures d == 0 ==> r == 0
    ensures d > 0 ==> r < d && exists q: nat :: n == q * d + r
  {
    if d == 0 { return 0; }
    var q := UDiv(n, d);
    r := Wrap64(n - d * q);
    assert n == q * d + r;
  }

  function Abs(x: int): nat {
    if x < 0 then -x else x
  }

  /** q is n / d truncated toward zero: the rest is smaller than d and has the sign of n. */
  ghost predicate Truncated(n: int, d: int, q: int) {
    Abs(n - d * q) < Abs(d) && (n >= 0 ==> n - d * q >= 0) && (n <= 0 ==> n - d * q <= 0)
  }

  /** There is only one such quotient. */
  lemma TruncatedUnique(n: int, d: int, p: int, q: int)
    requires Truncated(n, d, p) && Truncated(n, d, q)
    ensures p == q
  {
    assert d * p - d * q == d * (p - q);
    NoSmallMultiple(d, p - q);
  }

  lemma NoSmallMultiple(d: int, k: int)
    ensures Abs(d * k) < Abs(d) ==> k == 0
  {
    if k > 0 {
      assert d >= 0 ==> d * k >= d;
      assert d < 0 ==> d * k <= d;
    } else if k < 0 {
      assert d >= 0 ==> d * k <= 0 - d;
      assert d < 0 ==> d * k >= 0 - d;
    }
  }

  /** The quotient of the magnitudes, with the sign, is the truncated quotient. */
  lemma SignedQuotient(n: int, d: int, m: nat)
    requires d != 0 && m * Abs(d) <= Abs(n) < m * Abs(d) + Abs(d)
    ensures Truncated(n, d, if (n < 0) != (d < 0) then 0 - m else m)
  {
    assert d * (0 - m) == 0 - m * d && d * m == m * d;
    assert m * (0 - d) == 0 - m * d;
  }

  /**
   __divdi3, with negation and conversion wrapping as they do on the machine: the truncated
   quotient, except that the least number divided by -1 stays itself; and +-1 for the divisor 0.
   */
  method SDiv(n: i64, d: i64) returns (q: i64)
    ensures d != 0 ==> (Truncated(n, d, q) <==> !(n == -0x8000_0000_0000_0000 && d == -1))
    ensures n == -0x8000_0000_0000_0000 && d == -1 ==> q == n
    ensures d == 0 ==> q == if n < 0 then -1 else 1
  {
    var m := UDiv(Wrap64(if n < 0 then Signed64(0 - n) else n), Wrap64(if d < 0 then Signed64(0 - d) else d));
    q := if (n < 0) != (d < 0) then Signed64(0 - Signed64(m)) else Signed64(m);
    Magnitude(n);
    Magnitude(d);
    if d != 0 {
      if n == -0x8000_0000_0000_0000 && d == -1 {
        assert m == 0x8000_0000_0000_0000 && q == n;
        LeastByMinusOne();
      } else {
        SignedQuotient(n, d, m);
        LargeQuotient(n, d, m);
        SignApplied(m, (n < 0) != (d < 0));
      }
    }
  }

  lemma LeastByMinusOne()
    ensures !Truncated(-0x8000_0000_0000_0000, -1, -0x8000_0000_0000_0000)
  {
  }

  lemma SignApplied(m: u64, negative: bool)
    requires m <= 0x8000_0000_0000_0000 && (m == 0x8000_0000_0000_0000 ==> negative)
    ensures (if negative then Signed64(0 - Signed64(m)) else Signed64(m)) == if negative then 0 - m else m
  {
  }

  lemma Magnitude(x: i64)
    ensures Wrap64(if x < 0 then Signed64(0 - x) else x) == Abs(x)
  {
  }

  /** Only the least number has a quotient of magnitude 2^63, and only by 1 or -1. */
  lemma LargeQuotient(n: i64, d: i64, m: nat)
    requires d != 0 && m * Abs(d) <= Abs(n) && !(n == -0x8000_0000_0000_0000 && d == -1)
    ensures m <= 0x8000_0000_0000_0000 && (m == 0x8000_0000_0000_0000 ==> (n < 0) != (d < 0))
  {
    ProductGrows(m, Abs(d));
  }

  lemma ProductGrows(m: nat, a: nat)
    ensures (a >= 2 ==> m * a >= 2 * m) && (a == 1 ==> m * a == m)
  {
    assert m * a == 2 * m + m * (a - 2);
    assert a >= 2 ==> m * (a - 2) >= 0;
  }

  /** __moddi3: the rest of the truncated division, for every divisor but 0, for which it is the dividend. */
  method SMod(n: i64, d: i64) returns (r: i64)
    ensures d == 0 ==> r == n
    ensures d != 0 ==> exists q: int :: Truncated(n, d, q) && r == n - d * q
  {
    var q := SDiv(n, d);
    r := Signed64(n - Signed64(d * q));
    if d != 0 {
      if n == -0x8000_0000_0000_0000 && d == -1 {
        assert Truncated(n, d, 0x8000_0000_0000_0000);
      } else {
        RestFits(n, d, q);
      }
    }
  }

  lemma RestFits(n: i64, d: i64, q: int)
    requires Truncated(n, d, q)
    ensures Signed64(n - Signed64(d * q)) == n - d * q
  {
    FitsSigned(d * q);
    FitsSigned(n - d * q);
  }

  lemma FitsSigned(x: int)
    ensures -0x8000_0000_0000_0000 <= x < 0x8000_0000_0000_0000 ==> Signed64(x) == x
  {
  }
}
