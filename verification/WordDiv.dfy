/** Two-limbs-by-one division (mbedtls_int_div_int) in both build configurations. */
module WordDiv {
  import opened Arith
  import opened Limbs
  import opened MpiCore
  import opened Shift
  import opened WordMul

  /** What both configurations compute: quotient and remainder of u1:u0 by d, or all ones on overflow. */
  predicate IsQuotient(u1: Limb, u0: Limb, d: Limb, q: Limb, r: Limb) {
    if d == 0 || u1 >= d then q == B - 1 && r == B - 1
    else q * d + r == u1 * B + u0 && r < d
  }

  function AllOnes(): (r: Limb) {
    BasePos();
    B - 1
  }

  /** The quotient of a dividend whose high limb is below the divisor fits a limb. */
  lemma QuotientFits(u1: Limb, u0: Limb, d: Limb)
    requires u1 < d
    ensures 0 <= (u1 * B + u0) / d < B && 0 <= u1 * B + u0
  {
    var u := u1 * B + u0;
    BasePos();
    MulNonneg(u1, B);
    MulLe(u1 + 1, d, B);
    MulDist(u1, 1, B);
    DivModFacts(u, d);
    MulCancelLt(u / d, B, d);
  }

  method IntDivDouble(u1: Limb, u0: Limb, d: Limb) returns (q: Limb, r: Limb)
    ensures IsQuotient(u1, u0, d, q, r)
  {
    if d == 0 || u1 >= d {
      return AllOnes(), AllOnes();
    }
    QuotientFits(u1, u0, d);
    var dividend: int := u1 as int * B + u0 as int;
    DivModFacts(dividend, d);
    var quotient: int := dividend / d as int;
    if quotient > B - 1 {
      quotient := B - 1;
    }
    q := quotient;
    r := dividend - quotient * d as int;
  }

  lemma TrialExpand(q: int, r: int, u: int, d1: int, d0: int)
    requires q * d1 + r == u
    ensures q * (d1 * H + d0) == u * H - H * r + q * d0
  {
    MulDist(d1 * H, d0, q);
    MulAssoc(q, d1, H);
    MulDist(q * d1, r, H);
  }

  /** A decrement of the trial digit is justified: the digit is too large. */
  lemma DigitTooLarge(q: int, r: int, u: int, low: int, d1: int, d0: int, t: int, rem: int)
    requires q * d1 + r == u && 0 <= low && 0 <= r
    requires t * (d1 * H + d0) + rem == u * H + low && 0 <= rem < d1 * H + d0
    requires q * d0 > H * r + low
    ensures q > t
  {
    TrialExpand(q, r, u, d1, d0);
    if q <= t {
      MulLe(q, t, d1 * H + d0);
    }
  }

  /** A trial digit that passes the test is not too large. */
  lemma DigitNotTooLarge(q: int, r: int, u: int, low: int, d1: int, d0: int, t: int, rem: int)
    requires q * d1 + r == u
    requires t * (d1 * H + d0) + rem == u * H + low && 0 <= rem < d1 * H + d0
    requires q * d0 <= H * r + low
    ensures q <= t
  {
    TrialExpand(q, r, u, d1, d0);
    if q > t {
      MulLe(t + 1, q, d1 * H + d0);
      MulDist(t, 1, d1 * H + d0);
    }
  }

  /** The first trial digit exceeds the radix by at most one. */
  lemma TrialBound(u: Limb, d1: int, d0: int)
    requires H <= 2 * d1 && d1 < H && 0 <= d0 < H && u < d1 * H + d0
    ensures d1 > 0 && 0 <= u / d1 <= H + 1
  {
    BaseFacts();
    DivModFacts(u, d1);
    if u / d1 >= H + 2 {
      MulLe(H + 2, u / d1, d1);
      MulDist(H, 2, d1);
    }
  }

  /** The true digit is not above the first trial digit, and is below the radix. */
  lemma TrialAbove(u: int, low: int, d1: int, d0: int, t: int, rem: int)
    requires 0 < d1 && 0 <= d0 && 0 <= low < H && 0 <= u < d1 * H + d0
    requires t * (d1 * H + d0) + rem == u * H + low && 0 <= rem < d1 * H + d0
    ensures t <= u / d1 && 0 <= t < H
  {
    var d := d1 * H + d0;
    BaseFacts();
    MulPos(d1, H);
    MulLe(u + 1, d, H);
    MulDist(u, 1, H);
    MulNonneg(u, H);
    MulCancelLt(t, H, d);
    MulCancelLt(-1, t, d);
    DivModFacts(u, d1);
    if t > u / d1 {
      MulLe(u / d1 + 1, t, d1);
      MulDist(u / d1, 1, d1);
      MulNonneg(t, d0);
      TrialExpand(t, u - t * d1, u, d1, d0);
      MulLe(u - t * d1, -1, H);
    }
  }

  lemma DigitProducts(q: int, r: int, low: int, d0: int)
    requires 0 <= q <= H && 0 <= r < H && 0 <= low < H && 0 <= d0 < H
    ensures 0 <= q * d0 < B && 0 <= H * r + low < B && 0 <= H * r < B
  {
    BaseFacts();
    MulNonneg(q, d0);
    MulLe(q, H, d0);
    MulLe(d0, H - 1, H);
    MulDist(H, 1, H);
    MulNonneg(H, r);
    MulLe(r, H - 1, H);
  }

  /** q is a trial digit for u:low by d1:d0 with partial remainder r; the true digit is t. */
  ghost predicate Trial(u: int, low: int, d1: int, d0: int, t: int, rem: int, q: int, r: int) {
    && q * d1 + r == u && 0 <= low && 0 <= r && t <= q <= H + 1 && 0 <= t < H && d0 < H
    && t * (d1 * H + d0) + rem == u * H + low && 0 <= rem < d1 * H + d0
  }

  lemma TrialStart(u: Limb, low: int, d1: int, d0: int) returns (t: int, rem: int)
    requires 0 < H <= 2 * d1 && d1 < H && 0 <= d0 < H && u < d1 * H + d0 && 0 <= low < H
    ensures d1 > 0 && Trial(u, low, d1, d0, t, rem, u / d1, u - d1 * (u / d1)) && u - d1 * (u / d1) < d1
  {
    MulPos(d1, H);
    var d := d1 * H + d0;
    var n := u * H + low;
    DivModFacts(n, d);
    t, rem := n / d, n % d;
    TrialBound(u, d1, d0);
    TrialAbove(u, low, d1, d0, t, rem);
    DivModFacts(u, d1);
  }

  lemma TrialDown(u: int, low: int, d1: int, d0: int, t: int, rem: int, q: int, r: int)
    requires Trial(u, low, d1, d0, t, rem, q, r) && d1 > 0
    requires q >= H || q * d0 > H * r + low
    ensures Trial(u, low, d1, d0, t, rem, q - 1, r + d1) && q >= 1
  {
    if q < H { DigitTooLarge(q, r, u, low, d1, d0, t, rem); }
    MulDist(q, 1, d1);
  }

  lemma TrialDone(u: int, low: int, d1: int, d0: int, t: int, rem: int, q: int, r: int)
    requires Trial(u, low, d1, d0, t, rem, q, r)
    requires (q < H && q * d0 <= H * r + low) || (q <= H && r >= H && 0 <= d0)
    ensures q == t
  {
    if r >= H && 0 <= d0 {
      MulLe(q, H, d0);
      MulLe(d0, H, H);
      MulLe(H, r, H);
    }
    DigitNotTooLarge(q, r, u, low, d1, d0, t, rem);
  }

  /** The wrapped comparison is the exact one. */
  lemma TestIsExact(q: Limb, r: Limb, low: Limb, d0: Limb, radix: Limb)
    requires q < H && r < H && low < H && d0 < H && radix == H
    ensures MulW(q, d0) == q * d0 && AddW(MulW(radix, r), low) == H * r + low
  {
    DigitProducts(q, r, low, d0);
    WrapId(q as int * d0 as int);
    WrapId(radix as int * r as int);
    WrapId(H * r + low);
  }

  /** The trial digit of u by d1, lowered until it passes the two-digit test. */
  method TrialDigit(u: Limb, low: Limb, d1: Limb, d0: Limb, ghost t: int, ghost rem: int) returns (q: Limb)
    requires 0 < H <= 2 * d1 && d1 < H && d0 < H && low < H && u < d1 * H + d0
    requires Trial(u, low, d1, d0, t, rem, u / d1, u - d1 * (u / d1)) && u - d1 * (u / d1) < d1
    ensures q == t
  {
    BaseFacts();
    var radix: Limb := H;
    q := (DivShrinks(u, d1); u / d1);
    DivModFacts(u, d1);
    var r0: Limb := u - d1 * q;
    while q >= radix || MulW(q, d0) > AddW(MulW(radix, r0), low)
      invariant r0 < H && Trial(u, low, d1, d0, t, rem, q, r0)
      decreases q
    {
      if q < radix { TestIsExact(q, r0, low, d0, radix); }
      TrialDown(u, low, d1, d0, t, rem, q, r0);
      q := q - 1;
      r0 := r0 + d1;
      if r0 >= radix {
        TrialDone(u, low, d1, d0, t, rem, q, r0);
        return;
      }
    }
    TestIsExact(q, r0, low, d0, radix);
    TrialDone(u, low, d1, d0, t, rem, q, r0);
  }

  lemma WrapNegate(a: int, y: int)
    ensures Wrap(a - Wrap(y) as int) == Wrap(a - y)
  {
    BasePos();
    DivModFacts(y, B);
    ModAddMultiple(a - y, y / B, B);
  }

  /** Wrapped intermediate terms leave the result right modulo B. */
  lemma WrappedDifference(u: Limb, radix: Limb, low: Limb, q: Limb, d: Limb)
    ensures AddW(MulW(u, radix), SubW(low, MulW(q, d))) == Wrap(u as int * radix as int + low - q as int * d as int)
  {
    var x, y: int := u as int * radix as int, q as int * d as int;
    WrapNegate(low, y);
    WrapSum(x, Wrap(low as int - y) as int);
    WrapSum(low as int - y, x);
  }

  /** One quotient digit in base 2^biH and the remainder that goes with it. */
  method HalfDigit(u: Limb, low: Limb, d: Limb, d1: Limb, d0: Limb) returns (q: Limb, rem: Limb)
    requires d == d1 * H + d0 && 0 < H <= 2 * d1 && d1 < H && d0 < H && u < d && low < H
    ensures q < H && rem < d && q * d + rem == u * H + low
  {
    BaseFacts();
    ghost var t, r := TrialStart(u, low, d1, d0);
    q := TrialDigit(u, low, d1, d0, t, r);
    var radix: Limb := H;
    rem := AddW(MulW(u, radix), SubW(low, MulW(q, d)));
    WrappedDifference(u, radix, low, q, d);
    WrapId(r);
  }

  /** Normalised divisor and dividend: the top bit of the divisor is set. */
  lemma Normalised(u1: Limb, u0: Limb, d: Limb, s: nat)
    requires u1 < d && s < biL && IsBitLen(d, biL - s)
    ensures Pow(2, s) > 0 && B <= 2 * (d * Pow(2, s)) < 2 * B
    ensures 0 <= u1 * Pow(2, s) < B
  {
    var m := Pow(2, s);
    PowPos(2, s);
    PowAdd(2, biL - s, s);
    PowAdd(2, biL - s - 1, s);
    MulLe(Pow(2, biL - s - 1), d, m);
    MulLt(d, Pow(2, biL - s), m);
    MulLt(u1, d, m);
    MulNonneg(u1, m);
    PowAdd(2, 1, biL - 1);
    assert Pow(2, 1) == 2 * Pow(2, 0);
  }

  lemma ShiftedDividend(u1: int, u0: int, m: int, spill: int, v0: int)
    requires v0 + spill * B == u0 * m
    ensures (u1 * m + spill) * B + v0 == (u1 * B + u0) * m
  {
    MulDist(u1 * m, spill, B);
    MulDist(u1 * B, u0, m);
    MulAssoc(u1, B, m);
  }

  lemma NormalisedBelow(u1: Limb, u0: Limb, d: Limb, m: int, v1: int, v0: int)
    requires u1 < d && m > 0 && v1 * B + v0 == (u1 * B + u0) * m && v0 >= 0
    ensures v1 < d * m
  {
    BasePos();
    MulLe(u1 + 1, d, B);
    MulDist(u1, 1, B);
    MulLt(u1 * B + u0, d * B, m);
    MulAssoc(d, B, m);
    MulCancelLt(v1, d * m, B);
  }

  lemma MultipleOf(u: int, s: nat)
    ensures Pow(2, s) > 0 && u * Pow(2, s) % Pow(2, s) == 0
  {
    PowPos(2, s);
    DivModUnique(u * Pow(2, s), Pow(2, s), u, 0);
  }

  /** The normalising shift multiplies the two-limb dividend by 2^s. */
  method NormaliseDividend(u1: Limb, u0: Limb, d: Limb, s: nat) returns (v1: Limb, v0: Limb)
    requires u1 < d && s < biL && IsBitLen(d, biL - s)
    ensures Pow(2, s) > 0 && v1 * B + v0 == (u1 * B + u0) * Pow(2, s) && v1 < d * Pow(2, s)
  {
    Normalised(u1, u0, d, s);
    v1 := u1 * Pow(2, s);
    if s == 0 {
      v0 := u0;
      WrapId(u0);
    } else {
      MultipleOf(u1, s);
      ShiftLeftColumn(u0, 0, s);
      SpillFits(u0, s);
      ghost var spill := u0 / Pow(2, biL - s);
      v1 := OrLow(v1, u0 / Pow(2, biL - s), s);
      v0 := Wrap(u0 as int * Pow(2, s));
      ShiftedDividend(u1, u0, Pow(2, s), spill, v0);
    }
    NormalisedBelow(u1, u0, d, Pow(2, s), v1, v0);
  }

  /** Both digits together. */
  lemma Recombine(v1: int, v0: int, d: int, q1: int, r1: int, q0: int, r0: int)
    requires H > 0 && v0 == v0 / H * H + v0 % H
    requires q1 * d + r1 == v1 * H + v0 / H && q0 * d + r0 == r1 * H + v0 % H
    ensures (q1 * H + q0) * d + r0 == v1 * B + v0
  {
    BaseFacts();
    MulDist(q1 * H, q0, d);
    MulAssoc(q1, H, d);
    MulDist(q1 * d, r1, H);
    MulDist(v1 * H, v0 / H, H);
    MulAssoc(v1, H, H);
  }

  /** Undoing the normalising shift. */
  lemma Unshift(q: int, d: int, m: int, r0: int, u: int)
    requires m > 0 && d > 0 && q * (d * m) + r0 == u * m && 0 <= r0 < d * m
    ensures q * d + r0 / m == u && 0 <= r0 / m < d
  {
    MulAssoc(q, d, m);
    MulDist(u, q * d, m);
    DivModUnique(r0, m, u - q * d, 0);
    MulCancelLt(r0 / m, d, m);
    MulCancelLt(-1, r0 / m, m);
  }

  /** Two half-limb digits make a limb. */
  lemma DigitsFit(q1: int, q0: int)
    requires 0 <= q1 < H && 0 <= q0 < H
    ensures 0 <= q1 * H + q0 < B
  {
    BaseFacts();
    MulNonneg(q1, H);
    MulLe(q1, H - 1, H);
    MulDist(H, 1, H);
  }

  lemma TopHalfLarge(d1: int, d0: int)
    requires d0 < H && B <= 2 * (d1 * H + d0)
    ensures H <= 2 * d1
  {
    BaseFacts();
    if 2 * d1 < H {
      assert 2 * d1 + 2 <= H by { assert H == 2 * (H / 2); }
      MulLe(2 * d1 + 2, H, H);
      MulDist(2 * d1, 2, H);
      MulAssoc(2, d1, H);
    }
  }

  /** Division by a divisor whose top bit is set, one half-limb digit at a time. */
  method DivNormalised(v1: Limb, v0: Limb, d: Limb) returns (q: Limb, r: Limb)
    requires B <= 2 * d && v1 < d
    ensures q * d + r == v1 * B + v0 && r < d
  {
    LowHalfFacts(d);
    LowHalfFacts(v0);
    var d1, d0 := HighHalf(d), LowHalf(d);
    TopHalfLarge(d1, d0);
    var q1, rAX := HalfDigit(v1, HighHalf(v0), d, d1, d0);
    var q0;
    q0, r := HalfDigit(rAX, LowHalf(v0), d, d1, d0);
    Recombine(v1, v0, d, q1, rAX, q0, r);
    DigitsFit(q1, q0);
    q := q1 * H + q0;
  }

  method IntDivHalf(u1: Limb, u0: Limb, d: Limb) returns (q: Limb, r: Limb)
    ensures IsQuotient(u1, u0, d, q, r)
  {
    if d == 0 || u1 >= d {
      return AllOnes(), AllOnes();
    }
    var s := Clz(d);
    Normalised(u1, u0, d, s);
    var m := Pow(2, s);
    var d': Limb := d * m;
    var v1, v0 := NormaliseDividend(u1, u0, d, s);
    q, r := DivNormalised(v1, v0, d');
    Unshift(q, d, m, r, u1 * B + u0);
    r := r / m;
  }
}
