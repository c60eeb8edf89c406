/** Bit length, lowest set bit, and shifts by any number of bits. */
module Shift {
  import opened Arith
  import opened Bits
  import opened Limbs
  import opened MpiCore

  /** r is the number of bits of v. */
  predicate IsBitLen(v: int, r: nat) {
    if v == 0 then r == 0 else r > 0 && Pow(2, r - 1) <= v < Pow(2, r)
  }

  ghost function BitLen(v: nat): nat {
    if v == 0 then 0 else 1 + BitLen(v / 2)
  }

  lemma {:induction false} BitLenIs(v: nat)
    ensures IsBitLen(v, BitLen(v))
  {
    if v == 1 {
      assert BitLen(1) == 1 + BitLen(0);
      assert Pow(2, 1) == 2 * Pow(2, 0);
    } else if v > 1 {
      BitLenIs(v / 2);
    }
  }

  lemma BitLenUnique(v: nat, r: nat)
    requires IsBitLen(v, r)
    ensures r == BitLen(v)
  {
    BitLenIs(v);
    var q := BitLen(v);
    if v > 0 {
      if r < q { PowMono(2, r, q - 1); } else if q < r { PowMono(2, q, r - 1); }
    }
  }

  /** r zero bits, then a one; zero counts none. */
  predicate IsLsb(v: int, r: nat) {
    Pow(2, r) > 0 &&
    if v == 0 then r == 0 else v % Pow(2, r) == 0 && v / Pow(2, r) % 2 == 1
  }

  lemma PAsPow2(i: nat)
    ensures biL * i >= 0 && P(i) == Pow(2, biL * i)
  {
    PowPow(2, biL, i);
  }

  /** Below twice the mask, the masked bit says whether the mask is reached. */
  lemma TopBit(x: int, m: int)
    requires 0 <= x < 2 * m
    ensures x / m % 2 == 1 <==> x >= m
  {
    if x >= m { DivModUnique(x, m, 1, x - m); } else { DivModUnique(x, m, 0, x); }
  }

  method Clz(x: Limb) returns (j: nat)
    ensures j <= biL && IsBitLen(x, biL - j)
  {
    j := 0;
    BaseFacts();
    while j < biL
      invariant 0 <= j <= biL && x < Pow(2, biL - j)
    {
      PowPos(2, biL - 1 - j);
      var mask := Pow(2, biL - 1 - j);
      TopBit(x, mask);
      if x / mask % 2 == 1 { break; }
      j := j + 1;
    }
    PowPos(2, biL - j);
    if j == biL { assert Pow(2, 0) == 1; }
  }

  lemma TopLimbBits(low: nat, x: nat, pi: int, e: nat, j: nat)
    requires low < pi && pi == Pow(2, e) && x > 0 && IsBitLen(x, j)
    ensures IsBitLen(low + x * pi, e + j)
  {
    PowAdd(2, e, j - 1);
    PowAdd(2, e, j);
    MulLe(Pow(2, j - 1), x, pi);
    MulLe(x + 1, Pow(2, j), pi);
    MulDist(x, 1, pi);
    PowPos(2, e + j - 1);
  }

  lemma BitLenOfTop(p: seq<Limb>, i: nat, j: nat)
    requires i < |p| && forall k :: i < k < |p| ==> p[k] == 0
    requires i > 0 ==> p[i] != 0
    requires IsBitLen(p[i], j)
    ensures i * biL + j >= 0 && IsBitLen(Val(p), i * biL + j)
  {
    VZeros(p, i + 1, |p|);
    MulNonneg(i, biL);
    VBound(p, i);
    PFacts(i);
    if p[i] == 0 {
      assert V(p, 0) == 0 && V(p, 1) == V(p, 0) + p[0] * P(0);
    } else {
      PAsPow2(i);
      TopLimbBits(V(p, i), p[i], P(i), biL * i, j);
    }
  }

  method Bitlen(x: Mpi) returns (r: nat)
    ensures r == BitLen(Val(x.p))
  {
    if |x.p| == 0 { return 0; }
    var i := |x.p| - 1;
    while i > 0 && x.p[i] == 0
      invariant 0 <= i < |x.p|
      invariant forall k :: i < k < |x.p| ==> x.p[k] == 0
    {
      i := i - 1;
    }
    var j := Clz(x.p[i]);
    BitLenOfTop(x.p, i, biL - j);
    r := i * biL + (biL - j);
    BitLenUnique(Val(x.p), r);
  }

  lemma {:induction false} BitsZero(x: int, j: nat)
    requires x >= 0 && Pow(2, j) > 0 && x % Pow(2, j) == 0 && x / Pow(2, j) % 2 == 0
    ensures Pow(2, j + 1) > 0 && x % Pow(2, j + 1) == 0
  {
    var m := Pow(2, j);
    DivModFacts(x, m);
    var h := x / m / 2;
    assert x / m == 2 * h;
    MulAssoc(2, h, m);
    MulAssoc(h, 2, m);
    DivModUnique(x, 2 * m, h, 0);
  }

  /** With only zeros below limb i, the number is a multiple of P(i) whose quotient ends in limb i. */
  lemma LimbThenRest(p: seq<Limb>, i: nat) returns (w: nat)
    requires i < |p| && forall k :: 0 <= k < i ==> p[k] == 0
    ensures Val(p) == P(i) * (p[i] + B * w)
  {
    VSplit(p, i, |p|);
    VZeros(p, 0, i);
    var q := p[i..];
    VSplit(q, 1, |q|);
    PFacts(0);
    assert V(q, 1) == V(q, 0) + q[0] * P(0);
    w := V(q[1..], |q| - 1);
  }

  lemma LsbArith(v: int, pi: int, x: int, b: int, w: int, m: int, e: int)
    requires v == pi * (x + b * w) && b == m * (2 * e) && m > 0 && pi > 0 && e > 0 && w >= 0
    requires x >= 0 && x % m == 0 && x / m % 2 == 1
    ensures pi * m > 0 && v > 0 && v % (pi * m) == 0 && v / (pi * m) % 2 == 1
  {
    var h := x / m;
    DivModFacts(x, m);
    MulPos(pi, m);
    var o := h + 2 * (e * w);
    MulNonneg(e, w);
    assert b * w == m * (2 * (e * w)) by { MulAssoc(m, 2 * e, w); MulAssoc(2, e, w); }
    MulDist(h, 2 * (e * w), m);
    MulAssoc(pi, m, o);
    MulPos(pi * m, o) by { DivModFacts(x, m); }
    DivModUnique(v, pi * m, o, 0) by { assert v == o * (pi * m); }
    ModAddMultiple(h, e * w, 2);
  }

  /** The first set bit of the first non-zero limb is the first set bit of the number. */
  lemma LsbOfLimb(p: seq<Limb>, i: nat, j: nat)
    requires i < |p| && j < biL && forall k :: 0 <= k < i ==> p[k] == 0
    requires Pow(2, j) > 0 && p[i] % Pow(2, j) == 0 && p[i] / Pow(2, j) % 2 == 1
    ensures i * biL + j >= 0 && Val(p) > 0 && IsLsb(Val(p), i * biL + j)
  {
    MulNonneg(i, biL);
    var w := LimbThenRest(p, i);
    PAsPow2(i);
    PFacts(i);
    PowAdd(2, biL * i, j);
    var e := Pow(2, biL - j - 1);
    PowPos(2, biL - j - 1);
    PowAdd(2, j, biL - j);
    assert Pow(2, biL - j) == 2 * e;
    LsbArith(Val(p), P(i), p[i], B, w, Pow(2, j), e);
  }

  method Lsb(x: Mpi) returns (count: nat)
    ensures IsLsb(Val(x.p), count)
  {
    count := 0;
    var i := 0;
    while i < |x.p|
      invariant 0 <= i <= |x.p| && count == i * biL
      invariant forall k :: 0 <= k < i ==> x.p[k] == 0
    {
      var j := 0;
      while j < biL
        invariant 0 <= j <= biL && count == i * biL + j
        invariant Pow(2, j) > 0 && x.p[i] % Pow(2, j) == 0
      {
        if x.p[i] / Pow(2, j) % 2 != 0 {
          LsbOfLimb(x.p, i, j);
          return;
        }
        BitsZero(x.p[i], j);
        j, count := j + 1, count + 1;
      }
      WrapId(x.p[i]);
      i := i + 1;
    }
    VZeros(x.p, 0, |x.p|);
    PowPos(2, 0);
    return 0;
  }

  /** A multiple of m below the multiple m*n leaves room for another m. */
  lemma MultipleBelow(a: int, m: int, n: int)
    requires m > 0 && a % m == 0 && a < m * n
    ensures a + m <= m * n
  {
    DivModFacts(a, m);
    MulCancelLt(a / m, n, m);
    MulLe(a / m + 1, n, m);
    MulDist(a / m, 1, m);
  }

  lemma OrFits(a: Limb, t: nat)
    requires t <= biL && Pow(2, t) > 0 && a % Pow(2, t) == 0
    ensures a + Pow(2, t) <= B
  {
    PowAdd(2, t, biL - t);
    MultipleBelow(a, Pow(2, t), Pow(2, biL - t));
  }

  /** Bitwise or of a word whose t low bits are clear with a word of at most t bits: they have no bit in common. */
  function OrLow(a: Limb, b: Limb, t: nat): (r: Limb)
    requires t <= biL && Pow(2, t) > 0 && a % Pow(2, t) == 0 && b < Pow(2, t)
    ensures r == a + b
  {
    OrFits(a, t);
    OrAligned(a, b, t);
    Or(a, b)
  }

  function BitsToLimbs(i: nat): (n: nat)
    ensures (n - 1) * biL < i <= n * biL || (i == 0 && n == 0)
  {
    BaseFacts();
    DivModFacts(i, biL);
    i / biL + if i % biL != 0 then 1 else 0
  }

  lemma ProductBelow(v: int, r: nat, count: nat, n: nat)
    requires 0 <= v < Pow(2, r) && r + count <= n * biL
    ensures v * Pow(2, count) < P(n)
  {
    PAsPow2(n);
    PowAdd(2, r, count);
    PowPos(2, count);
    PowMono(2, r + count, biL * n);
    MulLt(v, Pow(2, r), Pow(2, count));
  }

  lemma FitsBelow(v: nat, k: nat, n: nat)
    requires k <= n && v * P(k) < P(n)
    ensures v < P(n - k)
  {
    PFacts(k);
    PowAdd(B, k, n - k);
    MulCancelLt(v, P(n - k), P(k));
  }

  lemma MovedTail(p: seq<Limb>, q: seq<Limb>, k: nat)
    requires |p| == |q| && k <= |p| && forall j :: k <= j < |p| ==> q[j] == p[j - k]
    ensures Tail(q, k) == V(p, |p| - k)
  {
    VFrame(q[k..], p, |p| - k);
  }

  /** Moving limbs up by k places multiplies by P(k), as long as nothing falls off the top. */
  lemma MoveUp(p: seq<Limb>, q: seq<Limb>, k: nat)
    requires |p| == |q| && k <= |p|
    requires forall j :: 0 <= j < k ==> q[j] == 0
    requires forall j :: k <= j < |p| ==> q[j] == p[j - k]
    requires Val(p) * P(k) < P(|p|)
    ensures Val(q) == Val(p) * P(k)
  {
    var n := |p|;
    FitsBelow(Val(p), k, n);
    assert V(p, n - k) == Val(p) by { VHighZero(p, n - k, n); }
    MovedTail(p, q, k);
    assert V(q, k) == 0 by { VZeros(q, 0, k); }
    TailSplit(q, k);
  }

  lemma ShiftSplit(x: Limb, m: int, q: int)
    requires m > 0 && q > 0 && m * q == B
    ensures 0 <= x / q < m && Wrap(x as int * m) == (x % q) * m
    ensures (x % q) * m % m == 0
    ensures (x % q) * m + x / q * B == x * m
  {
    BasePos();
    DivModFacts(x, q);
    var h, l := x / q, x % q;
    MulDist(h * q, l, m);
    MulAssoc(h, q, m);
    MulLt(l, q, m);
    MulNonneg(l, m);
    DivModUnique(x as int * m, B, h, l * m);
    DivModUnique(l * m, m, l, 0);
    MulCancelLt(h, m, q);
  }

  /** One column of the left bit shift: m*q == B splits the limb into kept and spilled bits. */
  lemma ShiftLeftColumn(x: Limb, r0: int, t: nat)
    requires 0 < t < biL && 0 <= r0 < Pow(2, t)
    ensures Pow(2, biL - t) > 0 && Pow(2, t) > 0
    ensures 0 <= x / Pow(2, biL - t) < Pow(2, t)
    ensures Wrap(x as int * Pow(2, t)) % Pow(2, t) == 0
    ensures Wrap(x as int * Pow(2, t)) + r0 + x / Pow(2, biL - t) * B == x * Pow(2, t) + r0
  {
    var m, q := Pow(2, t), Pow(2, biL - t);
    PowAdd(2, t, biL - t);
    PowPos(2, t);
    PowPos(2, biL - t);
    ShiftSplit(x, m, q);
  }

  lemma SpillFits(x: Limb, t: nat)
    requires 0 < t < biL
    ensures Pow(2, biL - t) > 0 && 0 <= x / Pow(2, biL - t) < B
  {
    PowPos(2, biL - t);
    DivShrinks(x, Pow(2, biL - t));
  }

  /** Shift one limb left by t bits, taking r0 in at the bottom and spilling r1. */
  method ShiftWordLeft(x: Limb, r0: Limb, t: nat) returns (v: Limb, r1: Limb)
    requires 0 < t < biL && r0 < Pow(2, t)
    ensures r1 < Pow(2, t) && v + r1 * B == x * Pow(2, t) + r0
  {
    ShiftLeftColumn(x, r0, t);
    SpillFits(x, t);
    r1 := x / Pow(2, biL - t);
    v := Wrap(x as int * Pow(2, t));
    v := OrLow(v, r0, t);
  }

  lemma ShiftLeftStep(x: seq<Limb>, x': seq<Limb>, y: seq<Limb>, i: nat, r0: int, r1: int, m: int)
    requires i < |x| && i < |x'| && i < |y| && forall k :: 0 <= k < i ==> x'[k] == x[k]
    requires V(x, i) + Place(r0, i) == V(y, i) * m
    requires x'[i] + r1 * B == y[i] * m + r0
    ensures V(x', i + 1) + Place(r1, i + 1) == V(y, i + 1) * m
  {
    VFrame(x, x', i);
    PFacts(i);
    assert x'[i] * P(i) == (y[i] * m + r0 - r1 * B) * P(i);
    MulDist(y[i] * m + r0, r1 * B, P(i));
    MulDist(y[i] * m, r0, P(i));
    MulAssoc(r1, B, P(i));
    MulAssoc(y[i], m, P(i));
    MulDist(V(y, i), y[i] * P(i), m);
  }

  /** The in-place move of the limb array by v0 places, top limb first. */
  method MoveLimbsUp(x: Mpi, v0: nat)
    requires v0 <= |x.p| && Val(x.p) * P(v0) < P(|x.p|)
    modifies x
    ensures x.s == old(x.s) && |x.p| == old(|x.p|)
    ensures Val(x.p) == old(Val(x.p)) * P(v0)
    ensures forall k :: 0 <= k < v0 ==> x.p[k] == 0
  {
    var i := |x.p|;
    ghost var x0 := x.p;
    while i > v0
      invariant v0 <= i <= |x.p| == |x0| && x.s == old(x.s)
      invariant forall k :: i <= k < |x0| ==> x.p[k] == x0[k - v0]
      invariant forall k :: 0 <= k < i ==> x.p[k] == x0[k]
    {
      x.p := x.p[i - 1 := x.p[i - v0 - 1]];
      i := i - 1;
    }
    while i > 0
      invariant 0 <= i <= v0 && |x.p| == |x0| && x.s == old(x.s)
      invariant forall k :: v0 <= k < |x0| ==> x.p[k] == x0[k - v0]
      invariant forall k :: i <= k < v0 ==> x.p[k] == 0
    {
      x.p := x.p[i - 1 := (BasePos(); 0)];
      i := i - 1;
    }
    MoveUp(x0, x.p, v0);
  }

  /** Nothing spills over the top of an array that holds the whole result. */
  lemma NoSpill(v: nat, r: Limb, n: nat)
    requires v + Place(r, n) < P(n)
    ensures Place(r, n) == 0
  {
    PFacts(n);
    if r > 0 { MulLe(1, r, P(n)); }
  }

  /** The in-place shift of limbs v0.. by fewer than biL bits. */
  method ShiftBitsUp(x: Mpi, v0: nat, t1: nat)
    requires 0 < t1 < biL && v0 <= |x.p| && Val(x.p) * Pow(2, t1) < P(|x.p|)
    requires forall k :: 0 <= k < v0 ==> x.p[k] == 0
    modifies x
    ensures x.s == old(x.s) && |x.p| == old(|x.p|)
    ensures Val(x.p) == old(Val(x.p)) * Pow(2, t1)
  {
    PowPos(2, t1);
    var i: nat, r0: Limb := v0, (BasePos(); 0);
    ghost var y, m := x.p, Pow(2, t1);
    VZeros(y, 0, v0);
    while i < |x.p|
      invariant v0 <= i <= |x.p| == |y| && x.s == old(x.s) && r0 < Pow(2, t1)
      invariant forall k :: i <= k < |y| ==> x.p[k] == y[k]
      invariant V(x.p, i) + Place(r0, i) == V(y, i) * m
    {
      ghost var p := x.p;
      var v, r1 := ShiftWordLeft(x.p[i], r0, t1);
      x.p := x.p[i := v];
      ShiftLeftStep(p, x.p, y, i, r0, r1, m);
      r0 := r1;
      i := i + 1;
    }
    NoSpill(V(x.p, |y|), r0, |y|);
  }

  /** count / biL and count & (biL - 1): biL is a power of two. */
  method SplitCount(count: nat) returns (limbs: nat, bits: nat)
    ensures count == limbs * biL + bits && bits < biL
  {
    BaseFacts();
    DivModFacts(count, biL);
    limbs, bits := count / biL, count % biL;
  }

  /** The growth test compares limb counts. */
  lemma LimbsBelow(n: nat, i: nat)
    ensures n * biL < i <==> n < BitsToLimbs(i)
  {
    BaseFacts();
    var m := BitsToLimbs(i);
    if n < m {
      MulLe(n, m - 1, biL);
    } else {
      MulLe(m, n, biL);
    }
  }

  lemma BitsFit(v: nat, count: nat, n: nat)
    requires BitLen(v) + count <= n * biL
    ensures v * Pow(2, count) < P(n)
  {
    assert 0 <= v < Pow(2, BitLen(v)) by { BitLenIs(v); }
    ProductBelow(v, BitLen(v), count, n);
  }

  lemma ShiftRoomWhole(v: nat, count: nat, n: nat)
    requires BitsToLimbs(BitLen(v) + count) <= n
    ensures v * Pow(2, count) < P(n)
  {
    LimbsBelow(n, BitLen(v) + count);
    BitsFit(v, count, n);
  }

  lemma RoomMonotone(i: nat, j: nat, n: nat)
    requires i <= j && BitsToLimbs(j) <= n
    ensures BitsToLimbs(i) <= n
  {
    LimbsBelow(n, i);
    LimbsBelow(n, j);
  }

  lemma ShiftRoomLimbs(v: nat, count: nat, v0: nat, t1: nat, n: nat)
    requires BitsToLimbs(BitLen(v) + count) <= n && count == v0 * biL + t1
    ensures v0 <= n && v * P(v0) < P(n)
  {
    var w := v0 * biL;
    assert v0 <= n by {
      LimbsBelow(n, BitLen(v) + count);
      BaseFacts();
      MulCancelLe(v0, n, biL);
    }
    assert 0 <= w <= count by { MulNonneg(v0, biL); }
    assert Pow(2, w) == P(v0) by { PAsPow2(v0); }
    RoomMonotone(BitLen(v) + w, BitLen(v) + count, n);
    ShiftRoomWhole(v, w, n);
  }

  lemma ShiftFactors(v: int, v0: nat, t1: nat)
    ensures v0 * biL >= 0 && Pow(2, v0 * biL) == P(v0)
    ensures v * P(v0) * Pow(2, t1) == v * Pow(2, v0 * biL + t1)
  {
    PAsPow2(v0);
    PowAdd(2, v0 * biL, t1);
    MulAssoc(v, P(v0), Pow(2, t1));
  }

  /** There is room for both halves of the shift, which multiply out to 2^count. */
  lemma ShiftRoom(v: nat, count: nat, v0: nat, t1: nat, n: nat)
    requires BitsToLimbs(BitLen(v) + count) <= n && count == v0 * biL + t1 && t1 < biL
    ensures v0 <= n && v * P(v0) < P(n) && v * P(v0) * Pow(2, t1) == v * Pow(2, count) < P(n)
    ensures Pow(2, 0) == 1
  {
    ShiftRoomWhole(v, count, n);
    ShiftRoomLimbs(v, count, v0, t1, n);
    ShiftFactors(v, v0, t1);
  }

  /** X <<= count. */
  method ShiftL(x: Mpi, count: nat)
    modifies x
    ensures x.s == old(x.s) && Val(x.p) == old(Val(x.p)) * Pow(2, count)
    ensures |x.p| == Max(old(|x.p|), BitsToLimbs(BitLen(old(Val(x.p))) + count))
  {
    var v0, t1 := SplitCount(count);
    var i := Bitlen(x);
    i := i + count;
    LimbsBelow(|x.p|, i);
    if |x.p| * biL < i {
      Grow(x, BitsToLimbs(i));
    }
    ShiftRoom(Val(x.p), count, v0, t1, |x.p|);
    if v0 > 0 {
      MoveLimbsUp(x, v0);
    } else {
      PFacts(0);
    }
    if t1 > 0 {
      ShiftBitsUp(x, v0, t1);
    }
  }

  /** Moving limbs down by k places divides by P(k). */
  lemma MoveDown(p: seq<Limb>, q: seq<Limb>, k: nat)
    requires |p| == |q| && k <= |p|
    requires forall j :: 0 <= j < |p| - k ==> q[j] == p[j + k]
    requires forall j :: |p| - k <= j < |p| ==> q[j] == 0
    ensures P(k) > 0 && Val(q) == Val(p) / P(k)
  {
    assert Tail(p, k) == Val(q) by {
      VZeros(q, |p| - k, |p|);
      VFrame(q, p[k..], |p| - k);
    }
    TailSplit(p, k);
    VBound(p, k);
    DivModUnique(Val(p), P(k), Val(q), V(p, k));
  }

  method MoveLimbsDown(x: Mpi, v0: nat)
    requires v0 <= |x.p|
    modifies x
    ensures x.s == old(x.s) && |x.p| == old(|x.p|)
    ensures P(v0) > 0 && Val(x.p) == old(Val(x.p)) / P(v0)
  {
    var i := 0;
    ghost var x0 := x.p;
    while i < |x.p| - v0
      invariant 0 <= i <= |x0| - v0 && |x.p| == |x0| && x.s == old(x.s)
      invariant forall k :: 0 <= k < i ==> x.p[k] == x0[k + v0]
      invariant forall k :: i <= k < |x0| ==> x.p[k] == x0[k]
    {
      x.p := x.p[i := x.p[i + v0]];
      i := i + 1;
    }
    while i < |x.p|
      invariant |x0| - v0 <= i <= |x0| == |x.p| && x.s == old(x.s)
      invariant forall k :: 0 <= k < |x0| - v0 ==> x.p[k] == x0[k + v0]
      invariant forall k :: |x0| - v0 <= k < i ==> x.p[k] == 0
    {
      x.p := x.p[i := (BasePos(); 0)];
      i := i + 1;
    }
    MoveDown(x0, x.p, v0);
  }

  lemma ShiftRightSplit(x: Limb, r0: Limb, t: nat, low: int, m: int, q: int)
    requires 0 < t < biL && m == Pow(2, t) && q == Pow(2, biL - t) && r0 == low * q
    ensures m > 0 && q > 0 && q * m == B && x == x / m * m + x % m && 0 <= x % m < m
    ensures Wrap(x as int * q) == x % m * q && 0 <= x / m < q && r0 % q == 0
  {
    PowPos(2, t);
    PowPos(2, biL - t);
    PowAdd(2, t, biL - t);
    ShiftSplit(x, q, m);
    DivModUnique(r0, q, low, 0);
    DivModFacts(x, m);
  }

  lemma ShiftRightArith(low: int, q: int, h: int, m: int)
    requires q * m == B
    ensures (low * q + h) * m == low * B + h * m
  {
    MulDist(low * q, h, m);
    MulAssoc(low, q, m);
  }

  /** Shift one limb right by t bits, taking the bits of low (held at the top of r0) in above. */
  method ShiftWordRight(x: Limb, r0: Limb, t: nat, ghost low: int) returns (v: Limb, r1: Limb, ghost low': int)
    requires 0 < t < biL && 0 <= low < Pow(2, t) && r0 == low * Pow(2, biL - t)
    ensures 0 <= low' < Pow(2, t) && r1 == low' * Pow(2, biL - t)
    ensures v * Pow(2, t) + low' == x + low * B
  {
    var m, q := Pow(2, t), Pow(2, biL - t);
    ShiftRightSplit(x, r0, t, low, m, q);
    r1 := Wrap(x as int * q);
    v := (DivShrinks(x, m); x / m);
    v := OrLow(r0, v, biL - t);
    low' := x % m;
    ShiftRightArith(low, q, x / m, m);
  }

  lemma ShiftRightStep(x: seq<Limb>, x': seq<Limb>, y: seq<Limb>, i: nat, low: int, low': int, m: int)
    requires 0 < i <= |x| && |x| == |x'| == |y| && forall k :: i <= k < |x| ==> x'[k] == x[k]
    requires Val(y) - V(y, i) == (Val(x) - V(x, i)) * m + Place(low, i)
    requires x'[i - 1] * m + low' == y[i - 1] + low * B
    ensures Val(y) - V(y, i - 1) == (Val(x') - V(x', i - 1)) * m + Place(low', i - 1)
  {
    VSameTop(x, x', i, |x|);
    var p := P(i - 1);
    PFacts(i - 1);
    var tail := Val(x) - V(x, i);
    assert (x'[i - 1] * m + low') * p == (y[i - 1] + low * B) * p;
    MulDist(x'[i - 1] * m, low', p);
    MulDist(y[i - 1], low * B, p);
    MulAssoc(low, B, p);
    MulAssoc(x'[i - 1], m, p);
    MulDist(tail, x'[i - 1] * p, m);
  }

  method ShiftBitsDown(x: Mpi, v1: nat)
    requires 0 < v1 < biL
    modifies x
    ensures x.s == old(x.s) && |x.p| == old(|x.p|)
    ensures Pow(2, v1) > 0 && Val(x.p) == old(Val(x.p)) / Pow(2, v1)
  {
    PowPos(2, v1);
    var i, r0: Limb := |x.p|, (BasePos(); 0);
    ghost var y, m, low := x.p, Pow(2, v1), 0;
    while i > 0
      invariant 0 <= i <= |x.p| == |y| && x.s == old(x.s)
      invariant 0 <= low < m && r0 == low * Pow(2, biL - v1)
      invariant forall k :: 0 <= k < i ==> x.p[k] == y[k]
      invariant Val(y) - V(y, i) == (Val(x.p) - V(x.p, i)) * m + Place(low, i)
    {
      ghost var p, low0 := x.p, low;
      var v;
      v, r0, low := ShiftWordRight(x.p[i - 1], r0, v1, low);
      x.p := x.p[i - 1 := v];
      ShiftRightStep(p, x.p, y, i, low0, low, m);
      i := i - 1;
    }
    PFacts(0);
    DivModUnique(Val(y), m, Val(x.p), low);
  }

  lemma DivDiv(v: nat, a: int, b: int)
    requires a > 0 && b > 0
    ensures a * b > 0 && v / a / b == v / (a * b)
  {
    MulPos(a, b);
    DivModFacts(v, a);
    var q := v / a;
    DivModFacts(q, b);
    MulDist(q / b * b, q % b, a);
    MulAssoc(q / b, b, a);
    MulLe(q % b, b - 1, a);
    MulDist(b, 1, a);
    MulNonneg(q % b, a);
    DivModUnique(v, a * b, q / b, q % b * a + v % a);
  }

  lemma ShiftedOut(p: seq<Limb>, count: nat, v0: nat, v1: nat)
    requires count == v0 * biL + v1 && v0 >= |p|
    ensures Pow(2, count) > 0 && Val(p) / Pow(2, count) == 0
  {
    PowPos(2, count);
    VBound(p, |p|);
    PAsPow2(|p|);
    BaseFacts();
    MulLe(|p|, v0, biL);
    PowMono(2, biL * |p|, count);
    DivModUnique(Val(p), Pow(2, count), 0, Val(p));
  }

  /** X >>= count; the sign stays unless the whole array is shifted out. */
  method ShiftR(x: Mpi, count: nat)
    modifies x
    ensures Pow(2, count) > 0 && Val(x.p) == old(Val(x.p)) / Pow(2, count)
    ensures x.s == old(x.s) || (x.s == 1 && Val(x.p) == 0)
    ensures old(|x.p|) > 0 ==> |x.p| == old(|x.p|)
  {
    PowPos(2, count);
    var v0, v1 := SplitCount(count);
    if v0 > |x.p| || (v0 == |x.p| && v1 > 0) {
      ShiftedOut(x.p, count, v0, v1);
      BasePos();
      Lset(x, 0);
      return;
    }
    ghost var v := Val(x.p);
    ShiftFactors(1, v0, v1);
    PFacts(v0);
    PowPos(2, v1);
    if v0 > 0 {
      MoveLimbsDown(x, v0);
    } else {
      PFacts(0);
    }
    if v1 > 0 {
      ShiftBitsDown(x, v1);
    } else {
      assert Pow(2, 0) == 1;
    }
    DivDiv(v, P(v0), Pow(2, v1));
  }
}
