/** Multi-precision division A = Q * B + R (mbedtls_mpi_div_mpi) and the modulo built on it. */
module LongDivision {
  import opened Arith
  import opened Limbs
  import opened MpiCore
  import opened AddSub
  import opened Mul
  import opened Shift
  import opened WordDiv

  function AbsInt(a: int): nat {
    if a < 0 then -a else a
  }

  /** Quotient truncated towards zero. */
  function TQuot(a: int, b: int): int
    requires b != 0
  {
    var q := AbsInt(a) / AbsInt(b);
    if (a < 0) != (b < 0) then -q else q
  }

  /** Remainder with the sign of the dividend. */
  function TRem(a: int, b: int): int
    requires b != 0
  {
    var r := AbsInt(a) % AbsInt(b);
    if a < 0 then -r else r
  }

  lemma MulSigns(q: int, b: int)
    ensures (-q) * (-b) == q * b && (-q) * b == q * (-b) == -(q * b)
  {}

  /** The two functions are the division the header documents. */
  lemma TruncatedDivision(a: int, b: int)
    requires b != 0
    ensures a == TQuot(a, b) * b + TRem(a, b)
    ensures AbsInt(TRem(a, b)) < AbsInt(b)
    ensures TRem(a, b) == 0 || (TRem(a, b) < 0 <==> a < 0)
  {
    DivModFacts(AbsInt(a), AbsInt(b));
    var q := AbsInt(a) / AbsInt(b);
    MulSigns(q, b);
  }

  // ---- the quotient digit ----

  /** No other pair is. */
  lemma TruncatedUnique(a: int, b: int, q: int, r: int)
    requires b != 0 && a == q * b + r && AbsInt(r) < AbsInt(b)
    requires r == 0 || (r < 0 <==> a < 0)
    ensures q == TQuot(a, b) && r == TRem(a, b)
  {
    var s := if (a < 0) != (b < 0) then -q else q;
    MulSigns(q, b);
    assert AbsInt(a) == s * AbsInt(b) + AbsInt(r);
    DivModUnique(AbsInt(a), AbsInt(b), s, AbsInt(r));
  }

  lemma Val1(p: seq<Limb>)
    requires |p| >= 1 && forall k :: 1 <= k < |p| ==> p[k] == 0
    ensures Val(p) == p[0]
  {
    VZeros(p, 1, |p|);
    PFacts(0);
    assert V(p, 1) == V(p, 0) + p[0] * P(0);
  }

  lemma V2(p: seq<Limb>)
    requires |p| >= 2
    ensures V(p, 2) == p[1] * B + p[0]
  {
    PFacts(0);
    assert V(p, 1) == V(p, 0) + p[0] * P(0);
    assert V(p, 2) == V(p, 1) + p[1] * P(1);
  }

  lemma V3(p: seq<Limb>)
    requires |p| >= 3
    ensures V(p, 3) == p[2] * (B * B) + p[1] * B + p[0]
  {
    V2(p);
    PFacts(1);
    assert V(p, 3) == V(p, 2) + p[2] * P(2);
  }

  /** The two limbs of the divisor that the test looks at. */
  ghost function Top2(y: seq<Limb>, t: nat): int
    requires t < |y|
  {
    y[t] * B + if t < 1 then 0 else y[t - 1]
  }

  /** The three limbs of the dividend that the test looks at. */
  ghost function Top3(x: seq<Limb>, i: nat): int
    requires 1 <= i < |x|
  {
    x[i] * (B * B) + x[i - 1] * B + if i < 2 then 0 else x[i - 2]
  }

  /** value lies in [top * e, (top + 1) * e). */
  ghost predicate Leading(value: int, top: int, e: int) {
    top * e <= value < top * e + e
  }

  /** What the estimate relies on: both operands are pinned down to one unit of the same place e. */
  ghost predicate Pinned(x: int, d: int, x3: int, y2: int, e: int) {
    e > 0 && Leading(x, x3, e) && Leading(d, y2, e) && 0 <= x < B * d && y2 >= B
  }

  /** The true digit passes the three-limb test. */
  lemma TrueDigitPasses(x: int, d: int, x3: int, y2: int, e: int, q: int)
    requires Pinned(x, d, x3, y2, e) && 0 <= q && q * d <= x
    ensures q * y2 <= x3
  {
    MulLe(y2 * e, d, q);
    MulAssoc(q, y2, e);
    MulDist(x3, 1, e);
    MulCancelLt(q * y2, x3 + 1, e);
  }

  /** A digit that passes the test is at most one too large. */
  lemma PassingDigitClose(x: int, d: int, x3: int, y2: int, e: int, q: int, g: int)
    requires Pinned(x, d, x3, y2, e) && 0 <= q < B && x < (q + 1) * d && g * y2 <= x3
    ensures g <= q + 1
  {
    if g >= q + 2 {
      MulLe(q + 2, g, y2);
      MulDist(q + 1, 1, y2);
      assert (q + 1) * y2 + y2 <= x3;
      MulDist(y2, 1, e);
      MulLt(d, (y2 + 1) * e, q + 1);
      MulAssoc(q + 1, y2 + 1, e);
      MulDist(y2, 1, q + 1);
      MulCancelLt(x3, (q + 1) * (y2 + 1), e);
      assert false;
    }
  }

  lemma LeadingIntro(v: int, low: int, top: int, e: int)
    requires v == low + e * top && 0 <= low < e
    ensures Leading(v, top, e)
  {}

  lemma PinnedDividend(x: seq<Limb>, i: nat)
    requires 2 <= i < |x| && Val(x) < P(i + 1)
    ensures P(i - 2) > 0 && Leading(Val(x), Top3(x, i), P(i - 2))
  {
    assert V(x[i - 2..], 3) == Top3(x, i) by { V3(x[i - 2..]); }
    assert Val(x) == V(x, i - 2) + P(i - 2) * Top3(x, i) by {
      VHighZero(x, i + 1, |x|);
      VSplit(x, i - 2, i + 1);
    }
    assert V(x, i - 2) < P(i - 2) by { VBound(x, i - 2); }
    LeadingIntro(Val(x), V(x, i - 2), Top3(x, i), P(i - 2));
  }

  lemma PinnedTop2(y: seq<Limb>, t: nat)
    requires 0 < t < |y| && Sig(y) == t + 1
    ensures Leading(Val(y), Top2(y, t), P(t - 1))
  {
    assert V(y[t - 1..], 2) == Top2(y, t) by { V2(y[t - 1..]); }
    assert Val(y) == V(y, t - 1) + P(t - 1) * Top2(y, t) by {
      SigVal(y);
      VSplit(y, t - 1, t + 1);
    }
    assert V(y, t - 1) < P(t - 1) by { VBound(y, t - 1); }
    LeadingIntro(Val(y), V(y, t - 1), Top2(y, t), P(t - 1));
  }

  lemma TopAtLeastBase(y: seq<Limb>, t: nat)
    requires t < |y| && Sig(y) == t + 1
    ensures Top2(y, t) >= B
  {
    SigFacts(y);
    BasePos();
    MulLe(1, y[t], B);
  }

  lemma LeadingScale(v: int, top: int, e: int, s: int)
    requires s > 0 && Leading(v, top, e)
    ensures Leading(v * s, top, e * s)
  {
    MulLe(top * e, v, s);
    MulLt(v, top * e + e, s);
    MulDist(top * e, e, s);
    MulAssoc(top, e, s);
  }

  lemma PinnedDivisor(y: seq<Limb>, t: nat, i: nat)
    requires t < |y| && t < i && 2 <= i && Sig(y) == t + 1
    ensures Leading(Val(y) * P(i - t - 1), Top2(y, t), P(i - 2)) && Top2(y, t) >= B
  {
    TopAtLeastBase(y, t);
    if t == 0 {
      assert Val(y) == y[0] by { SigFacts(y); Val1(y); }
      PFacts(i - 2);
      MulAssoc(y[0], B, P(i - 2));
    } else {
      PinnedTop2(y, t);
      PFacts(i - t - 1);
      LeadingScale(Val(y), Top2(y, t), P(t - 1), P(i - t - 1));
      PowAdd(B, t - 1, i - t - 1);
    }
  }

  lemma PinnedSmall(x: seq<Limb>, y: seq<Limb>)
    requires |x| > 1 && |y| > 0 && Sig(y) == 1 && Val(x) < P(2)
    ensures B > 0 && Val(x) * B == Top3(x, 1) && Val(y) * P(0) * B == Top2(y, 0)
  {
    BasePos();
    PFacts(0);
    SigFacts(y);
    Val1(y);
    VHighZero(x, 2, |x|);
    V2(x);
    MulDist(x[1] * B, x[0], B);
    MulAssoc(x[1], B, B);
  }

  /** Numbers the test limbs pin down: the operands themselves, or both times B when X has two limbs. */
  lemma PinnedDigit(x: seq<Limb>, y: seq<Limb>, i: nat, t: nat) returns (m: int, e: int)
    requires t < i < |x| && t < |y| && Sig(y) == t + 1
    requires Val(x) < P(i + 1) && Val(x) < B * (Val(y) * P(i - t - 1))
    ensures m > 0 && Pinned(Val(x) * m, Val(y) * P(i - t - 1) * m, Top3(x, i), Top2(y, t), e)
  {
    var d := Val(y) * P(i - t - 1);
    if i >= 2 {
      m, e := 1, P(i - 2);
      PinnedDividend(x, i);
      PinnedDivisor(y, t, i);
    } else {
      m, e := B, 1;
      PinnedSmall(x, y);
      TopAtLeastBase(y, t);
      MulLt(Val(x), B * d, B);
      MulAssoc(B, d, B);
      MulNonneg(Val(x), B);
    }
  }

  lemma TopLimbBelow(y: seq<Limb>, t: nat, k: nat, q: int)
    requires t < |y| && 0 <= q
    ensures q * y[t] * (P(t) * P(k)) <= q * (Val(y) * P(k))
  {
    VMono(y, t + 1, |y|);
    PFacts(k);
    MulLe(y[t] * P(t), Val(y), P(k));
    MulAssoc(y[t], P(t), P(k));
    MulLe(y[t] * (P(t) * P(k)), Val(y) * P(k), q);
    MulAssoc(q, y[t], P(t) * P(k));
  }

  /** The first estimate is never too small. */
  lemma FirstEstimate(x: seq<Limb>, y: seq<Limb>, i: nat, t: nat, q: int)
    requires t < i < |x| && t < |y| && Sig(y) == t + 1 && Val(x) < P(i + 1)
    requires 0 <= q && q * (Val(y) * P(i - t - 1)) <= Val(x)
    ensures q * y[t] <= x[i] * B + x[i - 1]
  {
    var k := i - t - 1;
    VHighZero(x, i + 1, |x|);
    VSplit(x, i - 1, i + 1);
    VBound(x, i - 1);
    V2(x[i - 1..]);
    var x2 := x[i] * B + x[i - 1];
    var e := P(i - 1);
    PFacts(i - 1);
    assert Val(x) < (x2 + 1) * e by { MulDist(x2, 1, e); }
    assert q * y[t] * e <= Val(x) by { TopLimbBelow(y, t, k, q); PowAdd(B, t, k); }
    MulCancelLt(q * y[t], x2 + 1, e);
  }

  /** Loads the two leading divisor limbs into T1. */
  method LoadTop2(t1: Mpi, y: Mpi, t: nat)
    requires t1 != y && t < |y.p| && |t1.p| >= 2
    modifies t1
    ensures t1.s == 1 && |t1.p| == old(|t1.p|) && Val(t1.p) == Top2(y.p, t)
  {
    BasePos();
    Lset(t1, 0);
    t1.p := t1.p[0 := if t < 1 then 0 else y.p[t - 1]];
    t1.p := t1.p[1 := y.p[t]];
    VZeros(t1.p, 2, |t1.p|);
    V2(t1.p);
  }

  lemma EstimateNotBelow(q: int, d: Limb, u: int, g: Limb, rem: Limb)
    requires 0 < d && q * d <= u && g * d + rem == u && rem < d
    ensures q <= g
  {
    if q > g {
      MulLe(g + 1, q, d);
      MulDist(g, 1, d);
    }
  }

  /** The first estimate: leading dividend limbs by the leading divisor limb, capped at one limb. */
  method FirstDigit(x: Mpi, y: Mpi, i: nat, t: nat, ghost q: int) returns (g: Limb)
    requires t < i < |x.p| && t < |y.p| && Sig(y.p) == t + 1
    requires Val(x.p) < P(i + 1)
    requires 0 <= q < B && q * (Val(y.p) * P(i - t - 1)) <= Val(x.p)
    ensures q <= g
  {
    FirstEstimate(x.p, y.p, i, t, q);
    if x.p[i] >= y.p[t] {
      g := AllOnes();
    } else {
      var rem;
      g, rem := IntDivHalf(x.p[i], x.p[i - 1], y.p[t]);
      EstimateNotBelow(q, y.p[t], x.p[i] * B + x.p[i - 1], g, rem);
    }
  }

  /** Loads the three leading dividend limbs into T2. */
  method LoadTop3(t2: Mpi, x: Mpi, i: nat)
    requires t2 != x && 1 <= i < |x.p|
    modifies t2
    ensures t2.s == 1 && Val(t2.p) == Top3(x.p, i)
  {
    t2.s, t2.p := 1, [(BasePos(); if i < 2 then 0 else x.p[i - 2]), x.p[i - 1], x.p[i]];
    V3(t2.p);
  }

  lemma DigitPositive(q: int, g: int, y2: int, x3: int)
    requires 0 <= q <= g && q * y2 <= x3 < g * y2
    ensures g >= 1 && q <= g - 1
  {}

  /**
   * The quotient digit: the first estimate, lowered until digit times two divisor limbs no longer
   * exceeds three dividend limbs. q is the true digit.
   */
  method EstimateDigit(x: Mpi, y: Mpi, t1: Mpi, t2: Mpi, i: nat, t: nat, ghost q: int) returns (g: Limb)
    requires t1 != t2 && t1 != x && t1 != y && t2 != x && t2 != y
    requires t < i < |x.p| && t < |y.p| && Sig(y.p) == t + 1 && |t1.p| >= 2
    requires Val(x.p) < P(i + 1)
    requires 0 <= q < B && q * (Val(y.p) * P(i - t - 1)) <= Val(x.p)
    requires q * Top2(y.p, t) <= Top3(x.p, i)
    modifies t1, t2
    ensures |t1.p| >= 2 && q <= g && g * Top2(y.p, t) <= Top3(x.p, i)
  {
    g := FirstDigit(x, y, i, t, q);
    LoadTop3(t2, x, i);
    ghost var y2, x3 := Top2(y.p, t), Top3(x.p, i);
    while true
      invariant |t1.p| >= 2 && q <= g
      invariant t2.Value() == x3
      decreases g
    {
      LoadTop2(t1, y, t);
      MulInt(t1, t1, g);
      assert t1.Value() == y2 * g;
      var c := CmpMpi(t1, t2);
      if c <= 0 { break; }
      DigitPositive(q, g, y2, x3);
      g := g - 1;
    }
  }

  /** T1 = Y * g, moved up k limbs. */
  lemma Regroup(a: int, b: int, c: int, ab: int)
    requires ab == a * b
    ensures ab * c == b * (a * c)
  {
    MulAssoc(a, b, c);
  }

  method ScaledDivisor(t1: Mpi, y: Mpi, g: Limb, k: nat)
    requires t1 != y && y.s == 1 && |t1.p| >= 2
    modifies t1
    ensures t1.Value() == g * (Val(y.p) * P(k)) && |t1.p| >= 2
  {
    MulInt(t1, y, g);
    MulNonneg(Val(y.p), g);
    ghost var v := Val(t1.p);
    PAsPow2(k);
    ShiftL(t1, biL * k);
    assert t1.Value() == v * P(k);
    Regroup(Val(y.p), g, P(k), v);
  }

  /** The add-back term: Y moved up k limbs. */
  method MovedDivisor(t1: Mpi, y: Mpi, k: nat)
    requires t1 != y && y.s == 1 && |t1.p| >= 2 && |y.p| > 0
    modifies t1
    ensures t1.Value() == Val(y.p) * P(k) && |t1.p| >= 2
  {
    Copy(t1, y);
    PAsPow2(k);
    ShiftL(t1, biL * k);
  }

  /** The true digit and the facts the estimate is based on. */
  lemma TrueDigit(x: seq<Limb>, y: seq<Limb>, i: nat, t: nat) returns (q: int)
    requires t < i < |x| && t < |y| && Sig(y) == t + 1
    requires Val(x) < P(i + 1) && Val(x) < B * (Val(y) * P(i - t - 1))
    ensures 0 <= q < B && q * Top2(y, t) <= Top3(x, i)
    ensures var d := Val(y) * P(i - t - 1); d > 0 && q * d <= Val(x) < (q + 1) * d
    ensures forall g :: g * Top2(y, t) <= Top3(x, i) ==> g <= q + 1
  {
    var d := Val(y) * P(i - t - 1);
    SigFacts(y);
    PFacts(i - t - 1);
    MulPos(Val(y), P(i - t - 1));
    DivModFacts(Val(x), d);
    q := Val(x) / d;
    MulDist(q, 1, d);
    MulCancelLt(q, B, d);
    var m, e := PinnedDigit(x, y, i, t);
    MulLe(q * d, Val(x), m);
    MulAssoc(q, d, m);
    TrueDigitPasses(Val(x) * m, d * m, Top3(x, i), Top2(y, t), e, q);
    MulLt(Val(x), (q + 1) * d, m);
    MulAssoc(q + 1, d, m);
    forall g | g * Top2(y, t) <= Top3(x, i)
      ensures g <= q + 1
    {
      PassingDigitClose(Val(x) * m, d * m, Top3(x, i), Top2(y, t), e, q, g);
    }
  }

  /** Subtracting q or q + 1 divisors leaves the remainder, or the remainder less one divisor. */
  lemma AfterSubtract(x: int, d: int, q: int, g: int)
    requires d > 0 && q * d <= x < (q + 1) * d && q <= g <= q + 1
    ensures g == q ==> 0 <= x - g * d < d
    ensures g == q + 1 ==> x - g * d < 0 && 0 <= x - g * d + d < d && x - g * d + d == x - (g - 1) * d
  {
    MulDist(q, 1, d);
  }

  /** One turn of the main loop: digit k = i - t - 1 of the quotient, at most one add-back. */
  method DivStep(x: Mpi, y: Mpi, z: Mpi, t1: Mpi, t2: Mpi, i: nat, t: nat)
    requires x != y && x != z && x != t1 && x != t2 && y != z && y != t1 && y != t2
    requires z != t1 && z != t2 && t1 != t2
    requires t < i < |x.p| && t < |y.p| && Sig(y.p) == t + 1 && y.s == 1 && |t1.p| >= 2
    requires i - t - 1 < |z.p|
    requires x.Value() >= 0 && Val(x.p) < P(i + 1) && Val(x.p) < B * (Val(y.p) * P(i - t - 1))
    modifies x, z, t1, t2
    ensures z.s == old(z.s) && |z.p| == old(|z.p|) && z.p == old(z.p)[i - t - 1 := z.p[i - t - 1]]
    ensures 0 <= x.Value() < Val(y.p) * P(i - t - 1)
    ensures x.Value() + z.p[i - t - 1] * (Val(y.p) * P(i - t - 1)) == old(x.Value())
    ensures |t1.p| >= 2 && |x.p| >= old(|x.p|)
  {
    var k := i - t - 1;
    ghost var q := TrueDigit(x.p, y.p, i, t);
    ghost var d, v := Val(y.p) * P(k), Val(x.p);
    var g := EstimateDigit(x, y, t1, t2, i, t, q);
    AfterSubtract(v, d, q, g);
    ScaledDivisor(t1, y, g, k);
    SubMpi(x, x, t1);
    z.p := z.p[k := g];
    BasePos();
    var c := CmpInt(x, 0);
    if c < 0 {
      MovedDivisor(t1, y, k);
      AddMpi(x, x, t1);
      z.p := z.p[k := z.p[k] - 1];
    }
  }

  // ---- the whole division ----

  lemma LimbsOfBits(v: nat, r: nat, n: nat)
    requires v > 0 && n > 0 && IsBitLen(v, r) && P(n - 1) <= v < P(n)
    ensures n == BitsToLimbs(r)
  {
    PAsPow2(n);
    PAsPow2(n - 1);
    if r <= biL * (n - 1) { PowMono(2, r, biL * (n - 1)); }
    if r > biL * n { PowMono(2, biL * n, r - 1); }
    LimbsBelow(n - 1, r);
    LimbsBelow(n, r);
  }

  lemma SigBits(p: seq<Limb>)
    ensures Sig(p) == BitsToLimbs(BitLen(Val(p)))
  {
    SigFacts(p);
    BitLenIs(Val(p));
    if Val(p) > 0 { LimbsOfBits(Val(p), BitLen(Val(p)), Sig(p)); }
  }

  lemma BitLenShift(v: nat, k: nat)
    requires v > 0
    ensures v * Pow(2, k) > 0 && BitLen(v * Pow(2, k)) == BitLen(v) + k
  {
    BitLenIs(v);
    var r := BitLen(v);
    PowAdd(2, r, k);
    PowAdd(2, r - 1, k);
    PowPos(2, k);
    MulLe(Pow(2, r - 1), v, Pow(2, k));
    MulLt(v, Pow(2, r), Pow(2, k));
    MulPos(v, Pow(2, k));
    BitLenUnique(v * Pow(2, k), r + k);
  }

  /** Placing a digit at a zero limb. */
  lemma PlaceDigit(z: seq<Limb>, k: nat, g: Limb, y: int)
    requires k < |z| && z[k] == 0
    ensures Val(z[k := g]) == Val(z) + g * P(k)
    ensures Val(z[k := g]) * y == Val(z) * y + g * (y * P(k))
  {
    LimbStep(z, k, g);
    MulDist(Val(z), g * P(k), y);
    MulAssoc(g, P(k), y);
  }

  /** Room facts at the head of an iteration. */
  lemma DivRoom(y: seq<Limb>, i: nat, t: nat, x: int)
    requires t < i && t < |y| && Sig(y) == t + 1 && 0 <= x < Val(y) * P(i - t)
    ensures x < P(i + 1) && x < B * (Val(y) * P(i - t - 1))
  {
    SigFacts(y);
    PowAdd(B, t + 1, i - t);
    PFacts(i - t);
    MulLt(Val(y), P(t + 1), P(i - t));
    PFacts(i - t - 1);
    MulAssoc(B, Val(y), P(i - t - 1));
    MulAssoc(Val(y), B, P(i - t - 1));
  }

  ghost predicate Apart(x: Mpi, y: Mpi, z: Mpi, t1: Mpi, t2: Mpi) {
    && x != y && x != z && x != t1 && x != t2 && y != z && y != t1 && y != t2
    && z != t1 && z != t2 && t1 != t2
  }

  /** The main loop: digits n - t - 1 down to 0. */
  method DivLoop(x: Mpi, y: Mpi, z: Mpi, t1: Mpi, t2: Mpi, n: nat, t: nat)
    requires Apart(x, y, z, t1, t2)
    requires t <= n < |x.p| && t < |y.p| && Sig(y.p) == t + 1 && y.s == 1 && |t1.p| >= 2
    requires n - t < |z.p| && forall j :: 0 <= j < n - t ==> z.p[j] == 0
    requires 0 <= x.Value() < Val(y.p) * P(n - t)
    modifies x, z, t1, t2
    ensures z.s == old(z.s) && |z.p| == old(|z.p|) && |x.p| > n
    ensures 0 <= x.Value() < Val(y.p)
    ensures Val(z.p) * Val(y.p) + x.Value() == old(Val(z.p)) * Val(y.p) + old(x.Value())
  {
    var i := n;
    ghost var x0 := Val(z.p) * Val(y.p) + x.Value();
    while i > t
      invariant t <= i <= n < |x.p| && |t1.p| >= 2
      invariant z.s == old(z.s) && |z.p| == old(|z.p|)
      invariant forall j :: 0 <= j < i - t ==> z.p[j] == 0
      invariant 0 <= x.Value() < Val(y.p) * P(i - t)
      invariant Val(z.p) * Val(y.p) + x.Value() == x0
    {
      DivRoom(y.p, i, t, x.Value());
      ghost var z0 := z.p;
      DivStep(x, y, z, t1, t2, i, t);
      PlaceDigit(z0, i - t - 1, z.p[i - t - 1], Val(y.p));
      i := i - 1;
    }
    PFacts(0);
  }

  lemma TopDigitFits(g: Limb, d: int, x: int, v: int, n: nat)
    requires g * d + x == v && x >= d && v < P(n + 1) && P(n) <= d
    ensures g + 1 < B && (g + 1) * d == g * d + d
  {
    PFacts(n);
    MulDist(g, 1, d);
    if g + 1 >= B {
      MulLe(B, g + 1, d);
      MulLe(P(n), d, B);
    }
  }

  /** The leading digit, by repeated subtraction; it cannot overflow its limb. */
  method TopDigit(x: Mpi, y: Mpi, z: Mpi, n: nat, k: nat)
    requires x != y && x != z && y != z && |x.p| > n && |y.p| > 0 && k < |z.p| && z.p[k] == 0
    requires 0 <= x.Value() < P(n + 1) && P(n) <= y.Value()
    modifies x, z
    ensures z.s == old(z.s) && |x.p| > n
    ensures |z.p| == old(|z.p|) && z.p == old(z.p)[k := z.p[k]]
    ensures 0 <= x.Value() < y.Value()
    ensures z.p[k] * y.Value() + x.Value() == old(x.Value())
  {
    PFacts(n);
    ghost var d, v := y.Value(), x.Value();
    var c := CmpMpi(x, y);
    while c >= 0
      invariant c == Compare(x.Value(), d) && y.Value() == d && |x.p| > n
      invariant z.s == old(z.s) && |z.p| == old(|z.p|) && z.p == old(z.p)[k := z.p[k]]
      invariant 0 <= x.Value() && z.p[k] * d + x.Value() == v
      decreases x.Value()
    {
      TopDigitFits(z.p[k], d, x.Value(), v, n);
      BaseFacts();
      WrapAdd(z.p[k], 1);
      z.p := z.p[k := AddW(z.p[k], 1)];
      SubMpi(x, x, y);
      c := CmpMpi(x, y);
    }
  }

  lemma BackToDivisor(y: seq<Limb>, d: int, k: nat, t: nat)
    requires P(t) <= d < P(t + 1) && P(k) > 0 && Val(y) == d * P(k) / P(k)
    ensures Val(y) == d && Sig(y) == t + 1
  {
    DivModUnique(d * P(k), P(k), d, 0);
    SigByBounds(y, t + 1);
  }

  lemma TopDigitValue(z: seq<Limb>, k: nat, d: int)
    requires k < |z| && forall j :: 0 <= j < |z| && j != k ==> z[j] == 0
    ensures Val(z) * d == z[k] * (d * P(k))
  {
    VZeros(z, 0, k);
    VZeros(z, k + 1, |z|);
    MulAssoc(z[k], P(k), d);
  }

  /** |X| / |Y| into Z and |X| % |Y| left in X, for a divisor without leading zero limbs. */
  method DivMagnitudes(x: Mpi, y: Mpi, z: Mpi, t1: Mpi, t2: Mpi)
    requires Apart(x, y, z, t1, t2)
    requires x.s == 1 && y.s == 1 && |t1.p| >= 2 && |y.p| > 0 && Sig(y.p) == |y.p| && Val(y.p) <= Val(x.p)
    requires |x.p| <= |z.p| && forall j :: 0 <= j < |z.p| ==> z.p[j] == 0
    modifies x, y, z, t1, t2
    ensures z.s == old(z.s) && |z.p| == old(|z.p|) && |x.p| > 0
    ensures old(Val(y.p)) > 0
    ensures Val(z.p) == old(Val(x.p)) / old(Val(y.p))
    ensures x.Value() == old(Val(x.p)) % old(Val(y.p))
  {
    SubFits(|y.p|, y.p, x.p);
    var n, t := |x.p| - 1, |y.p| - 1;
    ghost var v, d := Val(x.p), Val(y.p);
    SigFacts(y.p);
    PFacts(t);
    PAsPow2(n - t);
    VBound(x.p, |x.p|);
    PowAdd(B, t, n - t);
    PFacts(n - t);
    MulLe(P(t), d, P(n - t));
    ShiftL(y, biL * (n - t));
    assert y.Value() == d * P(n - t);
    TopDigit(x, y, z, n, n - t);
    ShiftR(y, biL * (n - t));
    BackToDivisor(y.p, d, n - t, t);
    TopDigitValue(z.p, n - t, d);
    DivLoop(x, y, z, t1, t2, n, t);
    DivModUnique(v, d, Val(z.p), x.Value());
  }

  /** Scaling both operands scales the remainder and keeps the quotient. */
  lemma ScaledDivMod(a: nat, b: nat, m: int)
    requires b > 0 && m > 0
    ensures b * m > 0 && (a * m) / (b * m) == a / b && (a * m) % (b * m) == a % b * m
    ensures a % b * m / m == a % b
  {
    MulPos(b, m);
    DivModFacts(a, b);
    MulDist(a / b * b, a % b, m);
    MulAssoc(a / b, b, m);
    MulLt(a % b, b, m);
    MulNonneg(a % b, m);
    DivModUnique(a * m, b * m, a / b, a % b * m);
    DivModUnique(a % b * m, m, a % b, 0);
  }

  /** The shift that leaves the divisor one bit short of a full top limb. */
  method Normalise(x: Mpi, y: Mpi) returns (k: nat)
    requires x != y && Val(y.p) > 0 && |y.p| == Max(1, Sig(y.p))
    modifies x, y
    ensures x.s == old(x.s) && y.s == old(y.s)
    ensures Pow(2, k) > 0 && Val(x.p) == old(Val(x.p)) * Pow(2, k) && Val(y.p) == old(Val(y.p)) * Pow(2, k)
    ensures |y.p| > 0 && Sig(y.p) == |y.p| && k < biL
    ensures |x.p| == Max(old(|x.p|), BitsToLimbs(BitLen(old(Val(x.p))) + k))
  {
    SigBits(y.p);
    SigVal(y.p);
    var l := Bitlen(y);
    BaseFacts();
    k := l % biL;
    if k < biL - 1 {
      k := biL - 1 - k;
      ShiftL(x, k);
      BitLenShift(Val(y.p), k);
      RoomMonotone(l, l + k, BitsToLimbs(l + k));
      ShiftL(y, k);
      SigBits(y.p);
    } else {
      k := 0;
      assert Pow(2, 0) == 1;
      SigBits(x.p);
    }
    PowPos(2, k);
  }

  /** The sign-magnitude results are the truncated quotient and remainder. */
  lemma SignedDivision(sa: Sign, va: nat, sb: Sign, vb: nat)
    requires va >= vb > 0
    ensures Signed(if sa == sb then 1 else -1, va / vb) == TQuot(Signed(sa, va), Signed(sb, vb))
    ensures Signed(sa, va % vb) == TRem(Signed(sa, va), Signed(sb, vb))
  {
    DivModFacts(va, vb);
  }

  lemma SmallDividend(sa: Sign, va: nat, sb: Sign, vb: nat)
    requires va < vb
    ensures TQuot(Signed(sa, va), Signed(sb, vb)) == 0
    ensures TRem(Signed(sa, va), Signed(sb, vb)) == Signed(sa, va)
  {
    DivModUnique(va, vb, 0, va);
  }

  /**
   * What is left in Q. The signs of A and B are read after Q is written, so qa and qb, whether Q is A or B,
   * matter: the magnitude written there has a plus sign.
   */
  function QuotientLeft(qa: bool, qb: bool, sa: Sign, va: nat, sb: Sign, vb: nat): int
    requires vb > 0
  {
    if va < vb then 0
    else Signed(if (if qa then 1 else sa) == (if qb then 1 else sb) then 1 else -1, va / vb)
  }

  /** What is left in R: a copy of A, or the remainder with the sign that A has by then. */
  function RemainderLeft(qa: bool, qb: bool, sa: Sign, va: nat, sb: Sign, vb: nat): int
    requires vb > 0
  {
    if va < vb then if qa then 0 else Signed(sa, va)
    else Signed(if !qa then sa else if qb then 1 else sb, va % vb)
  }

  /** Not exactly one minus sign is lost by overwriting. */
  predicate QuotientRight(qa: bool, qb: bool, sa: Sign, va: nat, sb: Sign, vb: nat) {
    va < vb || ((qa && sa == -1) <==> (qb && sb == -1))
  }

  /** Q is not A, or the remainder does not depend on what was overwritten. */
  predicate RemainderRight(qa: bool, qb: bool, sa: Sign, va: nat, sb: Sign, vb: nat)
    requires vb > 0
  {
    qa ==> if va < vb then va == 0 else va % vb == 0 || sa == if qb then 1 else sb
  }

  /** The quotient is the truncated one exactly when its signs are right. */
  lemma QuotientExact(qa: bool, qb: bool, sa: Sign, va: nat, sb: Sign, vb: nat)
    requires vb > 0
    ensures QuotientLeft(qa, qb, sa, va, sb, vb) == TQuot(Signed(sa, va), Signed(sb, vb))
      <==> QuotientRight(qa, qb, sa, va, sb, vb)
  {
    if va < vb {
      SmallDividend(sa, va, sb, vb);
    } else {
      SignedDivision(sa, va, sb, vb);
      DivModFacts(va, vb);
      if va / vb == 0 { DivModUnique(va, vb, 0, va % vb); }
    }
  }

  /** The remainder is the truncated one exactly when Q did not spoil A. */
  lemma RemainderExact(qa: bool, qb: bool, sa: Sign, va: nat, sb: Sign, vb: nat)
    requires vb > 0
    ensures RemainderLeft(qa, qb, sa, va, sb, vb) == TRem(Signed(sa, va), Signed(sb, vb))
      <==> RemainderRight(qa, qb, sa, va, sb, vb)
  {
    if va < vb { SmallDividend(sa, va, sb, vb); } else { SignedDivision(sa, va, sb, vb); }
  }

  /**
   * -7 / 2 into A gives 3 and the remainder 1; 7 / -2 into B gives 3; and 1 / 2 into A makes the remainder 0.
   */
  lemma AliasWitness()
    ensures QuotientLeft(true, false, -1, 7, 1, 2) == 3 && TQuot(-7, 2) == -3
    ensures QuotientLeft(false, true, 1, 7, -1, 2) == 3 && TQuot(7, -2) == -3
    ensures RemainderLeft(true, false, 1, 1, 1, 2) == 0 && TRem(1, 2) == 1
    ensures RemainderLeft(true, false, -1, 7, 1, 2) == 1 && TRem(-7, 2) == -1
  {}

  /** A positive working copy with exactly the significant limbs. */
  method PositiveCopy(a: Mpi) returns (x: Mpi)
    requires Val(a.p) > 0
    ensures fresh(x) && x.s == 1 && Val(x.p) == Val(a.p) && |x.p| == Sig(x.p) == Sig(a.p) > 0
  {
    x := new Mpi();
    SigVal(a.p);
    Copy(x, a);
    SigBits(x.p);
    SigBits(a.p);
    x.s := 1;
  }

  lemma Val0Limb(p: seq<Limb>)
    requires |p| > 0 && Val(p) == 0
    ensures p[0] == 0
  {
    VLow(p, |p|);
  }

  method ZeroOf(n: nat) returns (z: Mpi)
    ensures fresh(z) && z.s == 1 && |z.p| == Max(1, n) && forall j :: 0 <= j < |z.p| ==> z.p[j] == 0
  {
    z := new Mpi();
    BasePos();
    Grow(z, n);
    Lset(z, 0);
    Val0Limb(z.p);
  }

  /** Normalising adds at most one limb. */
  lemma ShiftedLength(v: nat, k: nat, n: nat)
    requires BitsToLimbs(BitLen(v)) <= n && k < biL
    ensures BitsToLimbs(BitLen(v) + k) <= n + 1
  {
    LimbsBelow(n, BitLen(v));
    LimbsBelow(n + 1, BitLen(v) + k);
    MulDist(n, 1, biL);
  }

  /** The body of the division on working copies: |A| / |B| in Z, the shifted remainder in X. */
  method DivideOperands(a: Mpi, b: Mpi) returns (x: Mpi, z: Mpi, k: nat)
    requires 0 < Val(b.p) <= Val(a.p)
    ensures fresh(x) && fresh(z) && x != z && |x.p| > 0 && |z.p| > 0 && z.s == 1
    ensures Pow(2, k) > 0 && Val(z.p) == Val(a.p) / Val(b.p)
    ensures Val(x.p) / Pow(2, k) == Val(a.p) % Val(b.p)
  {
    x := PositiveCopy(a);
    var y := PositiveCopy(b);
    z := ZeroOf(|a.p| + 2);
    var t1 := ZeroOf(2);
    var t2 := new Mpi();
    ghost var va, vb := Val(a.p), Val(b.p);
    SigBits(x.p);
    k := Normalise(x, y);
    ShiftedLength(va, k, |a.p|);
    ScaledDivMod(va, vb, Pow(2, k));
    MulLe(vb, va, Pow(2, k));
    DivMagnitudes(x, y, z, t1, t2);
  }

  /** The remainder with its sign; zero is positive. */
  method PutRemainder(r: Mpi, x: Mpi, k: nat, s: Sign)
    requires r != x && |x.p| > 0 && Pow(2, k) > 0
    modifies r, x
    ensures r.Value() == Signed(s, old(Val(x.p)) / Pow(2, k))
    ensures |r.p| >= Max(1, old(|r.p|))
  {
    ShiftR(x, k);
    x.s := s;
    Copy(r, x);
    BasePos();
    var c := CmpInt(r, 0);
    if c == 0 { r.s := 1; }
  }

  /** The division for B != 0. */
  method Divide(q: Mpi?, r: Mpi?, a: Mpi, b: Mpi)
    requires Val(b.p) > 0
    modifies q, r
    ensures q != null && q != r ==>
      q.Value() == QuotientLeft(q == a, q == b, old(a.s), old(Val(a.p)), old(b.s), old(Val(b.p)))
    ensures r != null ==>
      r.Value() == RemainderLeft(q == a, q == b, old(a.s), old(Val(a.p)), old(b.s), old(Val(b.p)))
    ensures q != null && (q != r || old(|a.p|) > 0) ==> |q.p| > 0
    ensures r != null && q != a && old(|a.p|) > 0 ==> |r.p| >= Max(1, old(|r.p|))
  {
    BasePos();
    var c := CmpAbs(a, b);
    if c < 0 {
      if q != null { Lset(q, 0); }
      if r != null { Copy(r, a); }
      return;
    }
    var x, z, k := DivideOperands(a, b);
    if q != null {
      Copy(q, z);
      q.s := if a.s == b.s then 1 else -1;
    }
    if r != null {
      PutRemainder(r, x, k, a.s);
    }
  }

  /**
   * A = Q * B + R; either result may be omitted. Q and R may be operands; each result is right
   * exactly when overwriting Q lost no sign that is still read. When Q is R, the remainder is what stays.
   */
  method DivMpi(q: Mpi?, r: Mpi?, a: Mpi, b: Mpi) returns (ret: Status)
    modifies q, r
    ensures old(b.Value()) == 0 ==> ret == DivisionByZero
    ensures old(b.Value()) == 0 && q != null ==> q.s == old(q.s) && q.p == old(q.p)
    ensures old(b.Value()) == 0 && r != null ==> r.s == old(r.s) && r.p == old(r.p)
    ensures old(b.Value()) != 0 ==> ret == Ok && old(Val(b.p)) > 0
    ensures ret == Ok && q != null && q != r ==>
      && q.Value() == QuotientLeft(q == a, q == b, old(a.s), old(Val(a.p)), old(b.s), old(Val(b.p)))
      && (q.Value() == TQuot(old(a.Value()), old(b.Value())) <==>
          QuotientRight(q == a, q == b, old(a.s), old(Val(a.p)), old(b.s), old(Val(b.p))))
    ensures ret == Ok && r != null ==>
      && r.Value() == RemainderLeft(q == a, q == b, old(a.s), old(Val(a.p)), old(b.s), old(Val(b.p)))
      && (r.Value() == TRem(old(a.Value()), old(b.Value())) <==>
          RemainderRight(q == a, q == b, old(a.s), old(Val(a.p)), old(b.s), old(Val(b.p))))
    ensures ret == Ok && q != null && (q != r || old(|a.p|) > 0) ==> |q.p| > 0
    ensures ret == Ok && r != null && q != a && old(|a.p|) > 0 ==> |r.p| >= Max(1, old(|r.p|))
  {
    BasePos();
    var c := CmpInt(b, 0);
    if c == 0 { return DivisionByZero; }
    QuotientExact(q == a, q == b, a.s, Val(a.p), b.s, Val(b.p));
    RemainderExact(q == a, q == b, a.s, Val(a.p), b.s, Val(b.p));
    Divide(q, r, a, b);
    return Ok;
  }
}
